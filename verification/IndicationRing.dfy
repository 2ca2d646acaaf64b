/** The queue of indications between the polling and the dispatching thread: a
    ring of 60 slots with an explicit empty flag. */
module IndicationRing {
  import opened Common

  const MAX_NUMBER_INDICATION: nat := 30
  const MAX_NUMBER_INDICATION_QUEUE: nat := 60

  datatype Indication = Indication(frame: seq<byte>, timestampMs: nat)

  datatype Ring = Ring(slots: seq<Indication>, write: nat, read: nat, empty: bool) {
    predicate Valid() {
      && |slots| == MAX_NUMBER_INDICATION_QUEUE
      && write < MAX_NUMBER_INDICATION_QUEUE && read < MAX_NUMBER_INDICATION_QUEUE
      && (empty ==> write == read)
    }

    predicate Full() {
      !empty && write == read
    }

    function Count(): (n: nat)
      requires Valid()
    {
      if empty then 0
      else if write > read then write - read
      else MAX_NUMBER_INDICATION_QUEUE - (read - write)
    }

    /** The queue the ring stands for, oldest first. */
    function Contents(): (s: seq<Indication>)
      requires Valid()
      ensures |s| == Count()
    {
      seq(Count(), i requires 0 <= i < Count() => slots[Slot(read + i)])
    }

    /** onIndicationReceivedLocked: a full ring drops the indication. */
    function Push(x: Indication): Ring
      requires Valid()
    {
      if Full() then this
      else Ring(slots[write := x], Slot(write + 1), read, false)
    }

    /** The two stores that take the oldest indication off, in their order. */
    function Advance(): Ring
      requires Valid()
    {
      this.(read := Slot(read + 1))
    }

    function Settle(): Ring {
      this.(empty := empty || read == write)
    }

    /** The free room the poller works out from its view `r` of the read index. */
    function FreeRoom(r: nat): int {
      if empty then MAX_NUMBER_INDICATION_QUEUE
      else if write > r then MAX_NUMBER_INDICATION_QUEUE - (write - r)
      else r - write
    }
  }

  /** A position in the endless sequence of indications, as a slot. */
  function Slot(i: nat): (s: nat)
    ensures s < MAX_NUMBER_INDICATION_QUEUE
  {
    i % MAX_NUMBER_INDICATION_QUEUE
  }

  lemma SlotStep(i: nat)
    ensures Slot(Slot(i) + 1) == Slot(i + 1)
    ensures i < MAX_NUMBER_INDICATION_QUEUE ==> Slot(i) == i
  {}

  lemma SlotAdd(i: nat, k: nat)
    ensures Slot(Slot(i) + k) == Slot(i + k)
  {}

  /** Fewer than 60 apart, positions share a slot only when they are the same. */
  lemma SlotsDiffer(i: nat, j: nat)
    requires i <= j < i + MAX_NUMBER_INDICATION_QUEUE
    ensures Slot(i) == Slot(j) <==> i == j
  {}

  /** Pushing appends to the queue, unless the ring is full. */
  lemma PushAppends(r: Ring, x: Indication)
    requires r.Valid()
    ensures r.Push(x).Valid()
    ensures r.Push(x).Contents() == if r.Full() then r.Contents() else r.Contents() + [x]
    ensures r.Full() <==> r.Count() == MAX_NUMBER_INDICATION_QUEUE
  {
    if !r.Full() {
      PushCounts(r, x);
      hide Slot, Ring.Count;
      var r', n := r.Push(x), r.Count();
      forall i | 0 <= i <= n
        ensures r'.Contents()[i] == (r.Contents() + [x])[i]
      {
        WritePosition(r, i);
      }
    }
  }

  lemma PushCounts(r: Ring, x: Indication)
    requires r.Valid() && !r.Full()
    ensures r.Push(x).Valid() && r.Push(x).Count() == r.Count() + 1
  {}

  /** The write index is the slot behind the newest indication. */
  lemma WritePosition(r: Ring, i: nat)
    requires r.Valid() && !r.Full() && i <= r.Count()
    ensures Slot(r.read + i) == r.write <==> i == r.Count()
  {}

  /** Advancing and settling takes the oldest indication off. */
  lemma PopTakesOldest(r: Ring)
    requires r.Valid() && !r.empty
    ensures r.Advance().Settle().Valid()
    ensures r.Contents() == [r.slots[r.read]] + r.Advance().Settle().Contents()
  {
    PopCounts(r);
    hide Slot, Ring.Count;
    var r' := r.Advance().Settle();
    SlotStep(r.read);
    forall i | 0 <= i < r.Count()
      ensures r.Contents()[i] == ([r.slots[r.read]] + r'.Contents())[i]
    {
      if i > 0 { SlotAfterPop(r.read, i); }
    }
  }

  lemma PopCounts(r: Ring)
    requires r.Valid() && !r.empty
    ensures r.Advance().Settle().Valid() && r.Advance().Settle().Count() + 1 == r.Count()
  {}

  lemma SlotAfterPop(read: nat, i: nat)
    requires 0 < i
    ensures Slot(Slot(read + 1) + (i - 1)) == Slot(read + i)
  {}

  /** From the read index itself the free room worked out is what is free. */
  lemma RoomIsExact(r: Ring)
    requires r.Valid()
    ensures r.Full() <==> |r.Contents()| == 60
    ensures !r.Full() ==> r.FreeRoom(r.read) == 60 - |r.Contents()|
  {
    hide Slot;
  }

  class IndicationQueue {
    const queue: array<Indication>
    var write: nat
    var read: nat
    var empty: bool

    constructor ()
      ensures State().Valid() && State().Contents() == [] && fresh(queue)
    {
      queue := new Indication[MAX_NUMBER_INDICATION_QUEUE](_ => Indication([], 0));
      write, read, empty := 0, 0, true;
    }

    ghost function State(): Ring
      reads this, queue
    {
      Ring(queue[..], write, read, empty)
    }

    method OnIndicationReceivedLocked(frame: seq<byte>, timestampMs: nat)
      requires State().Valid()
      modifies `write, `empty, queue
      ensures State() == old(State()).Push(Indication(frame, timestampMs))
      ensures State().Valid()
      ensures State().Contents() == if old(State().Full()) then old(State().Contents())
                                    else old(State().Contents()) + [Indication(frame, timestampMs)]
    {
      PushAppends(State(), Indication(frame, timestampMs));
      if !empty && write == read {
        // No more room: must never happen.
      } else {
        queue[write] := Indication(frame, timestampMs);
        write := (write + 1) % MAX_NUMBER_INDICATION_QUEUE;
        empty := false;
      }
    }

    /** The slot that is handed to the dispatch function without the lock. */
    method Oldest() returns (ind: Indication)
      requires State().Valid() && !empty
      ensures ind == State().Contents()[0]
    {
      PopTakesOldest(State());
      ind := queue[read];
    }

    method RemoveOldest()
      requires State().Valid() && !empty
      modifies `read, `empty
      ensures State() == old(State()).Advance().Settle()
      ensures State().Valid()
      ensures old(State().Contents()) == [old(State().Contents())[0]] + State().Contents()
    {
      PopTakesOldest(State());
      read := (read + 1) % MAX_NUMBER_INDICATION_QUEUE;
      if read == write {
        empty := true;
      }
    }

    /** One turn of the dispatching loop, as far as the ring goes. */
    method DispatchOne() returns (ind: Indication)
      requires State().Valid() && !empty
      modifies `read, `empty
      ensures State().Valid() && old(State().Contents()) == [ind] + State().Contents()
    {
      ind := Oldest();
      RemoveOldest();
    }

    /** The number of indications to ask for; none when the ring looks full. */
    method Budget(stopRequested: bool) returns (maxNumIndication: nat)
      requires State().Valid()
      ensures State().Full() <==> maxNumIndication == 0
      ensures !State().Full() ==>
                maxNumIndication == if stopRequested then 1
                                    else if State().FreeRoom(read) < MAX_NUMBER_INDICATION then State().FreeRoom(read)
                                    else MAX_NUMBER_INDICATION
      ensures var free := 60 - |State().Contents()|;
              maxNumIndication == if free == 0 then 0 else if stopRequested then 1 else if free < 30 then free else 30
    {
      RoomIsExact(State());
      var freeBufferRoom;
      if !empty && write == read {
        return 0;
      } else if empty {
        freeBufferRoom := MAX_NUMBER_INDICATION_QUEUE;
      } else {
        if write > read {
          freeBufferRoom := MAX_NUMBER_INDICATION_QUEUE - (write - read);
        } else {
          freeBufferRoom := read - write;
        }
      }
      if stopRequested {
        maxNumIndication := 1;
      } else {
        maxNumIndication := if freeBufferRoom < MAX_NUMBER_INDICATION then freeBufferRoom else MAX_NUMBER_INDICATION;
      }
    }
  }
}
