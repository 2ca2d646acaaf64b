/** The reassembly queue as it is kept in memory: packet holders that are
    updated in place, a table of them, the empty flag other threads read, and
    the collector's last run. */
module ReassemblyQueue {
  import opened Common
  import opened Tiling
  import opened Fragments
  import opened Reassembly

  /** Bytes handed out by the platform allocator for packets and fragments. */
  class Heap {
    var inUse: nat

    constructor ()
      ensures inUse == 0
    {
      inUse := 0;
    }

    method Malloc(size: nat)
      modifies this
      ensures inUse == old(inUse) + size
    {
      inUse := inUse + size;
    }

    method Free(size: nat)
      requires size <= inUse
      modifies this
      ensures inUse == old(inUse) - size
    {
      inUse := inUse - size;
    }
  }

  class FullPacket {
    const key: Key
    var fullSize: nat
    var isFull: bool
    var head: seq<Stored>
    var lastRx: nat

    constructor (key: Key)
      ensures this.key == key && Value() == NewPacket
    {
      this.key := key;
      fullSize, isFull, head, lastRx := 0, false, [], 0;
    }

    function Value(): Packet
      reads this
    {
      Packet(head, fullSize, isFull, lastRx)
    }

    method Search(offset: nat) returns (found: bool)
      ensures found == HasOffset(head, offset)
    {
      var i := 0;
      while i < |head|
        invariant i <= |head|
        invariant forall j :: 0 <= j < i ==> head[j].offset != offset
      {
        if head[i].offset == offset {
          return true;
        }
        i := i + 1;
      }
      return false;
    }

    method AddFragment(heap: Heap, frag: Fragment, now: nat, mem: Memory) returns (ok: bool)
      modifies this, heap
      ensures ok == (!HasOffset(old(head), frag.offset) && mem.header && mem.data)
      ensures Value() == if ok then Extend(old(Value()), frag, now) else old(Value())
      ensures heap.inUse == old(heap.inUse) + FragmentsSize(head) - FragmentsSize(old(head))
    {
      var duplicate := Search(frag.offset);
      if duplicate {
        return false;
      }
      if mem.header {
        heap.Malloc(FRAGMENT_STRUCT_SIZE);
      }
      if mem.data {
        heap.Malloc(|frag.bytes|);
      }
      if !mem.header || !mem.data {
        if mem.header {
          heap.Free(FRAGMENT_STRUCT_SIZE);
        }
        if mem.data {
          heap.Free(|frag.bytes|);
        }
        return false;
      }
      head := [Stored(frag.offset, frag.bytes)] + head;
      if frag.last {
        fullSize := frag.offset + |frag.bytes|;
      }
      lastRx := now;
      return true;
    }

    method ReceivedSize() returns (rxSize: nat)
      ensures rxSize == SizeSum(Intervals(head))
    {
      hide SizeSum, Intervals;
      rxSize := 0;
      var i := 0;
      assert head[0..] == head;
      SizeOfRest(head, |head|);
      while i < |head|
        invariant i <= |head|
        invariant rxSize + SizeSum(Intervals(head[i..])) == SizeSum(Intervals(head))
      {
        SizeOfRest(head, i);
        rxSize := rxSize + |head[i].bytes|;
        i := i + 1;
      }
    }

    method CheckFull() returns (full: bool)
      modifies this`isFull
      ensures Value() == MarkFull(old(Value()))
      ensures full == isFull
    {
      if isFull {
        return true;
      }
      if fullSize == 0 {
        return false;
      }
      var rxSize := ReceivedSize();
      if rxSize == fullSize {
        isFull := true;
        return true;
      }
      return false;
    }

    /** Releases every fragment, copying it into `buffer` first when there is one. */
    method Drain(heap: Heap, buffer: array?<byte>)
      requires heap.inUse >= FragmentsSize(head)
      requires buffer != null ==> AllFit(head, buffer.Length)
      modifies this`head, heap, buffer
      ensures head == []
      ensures heap.inUse == old(heap.inUse) - FragmentsSize(old(head))
      ensures buffer != null ==> buffer[..] == CopyAll(old(buffer[..]), old(head))
    {
      while head != []
        invariant heap.inUse >= FragmentsSize(head)
        invariant heap.inUse - FragmentsSize(head) == old(heap.inUse) - FragmentsSize(old(head))
        invariant buffer != null ==> AllFit(head, buffer.Length)
        invariant buffer != null ==> CopyAll(buffer[..], head) == CopyAll(old(buffer[..]), old(head))
        decreases |head|
      {
        var f := head[0];
        if buffer != null {
          Copy(buffer, f);
        }
        heap.Free(|f.bytes|);
        heap.Free(FRAGMENT_STRUCT_SIZE);
        assert forall i :: 0 <= i < |head| - 1 ==> head[1..][i] == head[i + 1];
        head := head[1..];
      }
    }
  }

  lemma SizeOfRest(fs: seq<Stored>, i: nat)
    requires i <= |fs|
    ensures SizeSum(Intervals(fs[i..])) == if i < |fs| then |fs[i].bytes| + SizeSum(Intervals(fs[i + 1..])) else 0
  {
    if i < |fs| {
      assert fs[i..][0] == fs[i] && fs[i..][1..] == fs[i + 1..];
      assert Intervals(fs[i..])[1..] == Intervals(fs[i + 1..]);
    }
  }

  method Copy(buffer: array<byte>, f: Stored)
    requires f.offset + |f.bytes| <= buffer.Length
    modifies buffer
    ensures buffer[..] == Overwrite(old(buffer[..]), f)
  {
    forall i | 0 <= i < |f.bytes| {
      buffer[f.offset + i] := f.bytes[i];
    }
    assert buffer[f.offset..f.offset + |f.bytes|] == f.bytes;
    assert buffer[..] == buffer[..f.offset] + buffer[f.offset..f.offset + |f.bytes|] + buffer[f.offset + |f.bytes|..];
  }

  /** Half way through a sweep: `todo` is still to be tested, `dead` is gone. */
  ghost predicate Swept(before: Store, view: map<Key, Packet>, todo: set<Key>, dead: set<Key>, at: map<Key, nat>,
                        reading: nat, maxDuration: nat, clock: seq<nat>)
  {
    && Readings(before, clock)
    && todo <= before.packets.Keys
    && dead <= before.packets.Keys - todo
    && view == before.packets - dead
    && 2 <= reading && reading + |todo| == 2 + |before.packets|
    && at.Keys == before.packets.Keys - todo
    && forall k :: k in at ==>
         && 2 <= at[k] < reading
         && (k in dead <==> Expired(clock[at[k]], before.packets[k].lastRx, maxDuration))
  }

  lemma SweptStart(before: Store, maxDuration: nat, clock: seq<nat>)
    requires Readings(before, clock)
    ensures Swept(before, before.packets, before.packets.Keys, {}, map[], 2, maxDuration, clock)
  {
    assert |before.packets| == |before.packets.Keys|;
  }

  lemma SweptHolds(before: Store, view: map<Key, Packet>, todo: set<Key>, dead: set<Key>, at: map<Key, nat>,
                   reading: nat, maxDuration: nat, clock: seq<nat>, k: Key)
    requires Swept(before, view, todo, dead, at, reading, maxDuration, clock) && k in todo
    ensures reading < |clock| && k in view && view[k] == before.packets[k]
  {
  }

  lemma RemovedOneMore(m: map<Key, Packet>, ks: set<Key>, k: Key)
    ensures m - ks - {k} == m - (ks + {k})
  {
  }

  lemma SweptStep(before: Store, view: map<Key, Packet>, todo: set<Key>, dead: set<Key>, at: map<Key, nat>,
                  reading: nat, maxDuration: nat, clock: seq<nat>, k: Key, expired: bool)
    requires Swept(before, view, todo, dead, at, reading, maxDuration, clock)
    requires k in todo && reading < |clock| && k in before.packets
    requires expired == Expired(clock[reading], before.packets[k].lastRx, maxDuration)
    ensures Swept(before, if expired then view - {k} else view, todo - {k}, if expired then dead + {k} else dead,
                  at[k := reading], reading + 1, maxDuration, clock)
  {
    hide Expired;
    if expired {
      RemovedOneMore(before.packets, dead, k);
    }
    CountedDown(before, todo, reading, k);
    OneTested(before.packets.Keys, todo, k);
    OneMoreKey(at, k, reading);
  }

  lemma CountedDown(before: Store, todo: set<Key>, reading: nat, k: Key)
    requires k in todo && reading + |todo| == 2 + |before.packets|
    ensures reading + 1 + |todo - {k}| == 2 + |before.packets|
  {}

  lemma OneTested(all: set<Key>, todo: set<Key>, k: Key)
    requires k in todo && todo <= all
    ensures all - (todo - {k}) == all - todo + {k}
  {}

  lemma OneMoreKey(at: map<Key, nat>, k: Key, reading: nat)
    ensures at[k := reading].Keys == at.Keys + {k}
  {}

  lemma SweptEnd(before: Store, view: map<Key, Packet>, dead: set<Key>, at: map<Key, nat>,
                 reading: nat, maxDuration: nat, clock: seq<nat>)
    requires Swept(before, view, {}, dead, at, reading, maxDuration, clock)
    ensures view == before.packets - dead && DeadAt(before, dead, maxDuration, clock, at)
  {
    hide Expired;
  }

  /** Each holder is filed under its own key, so no holder is filed twice. */
  ghost predicate FiledIn(packets: map<Key, FullPacket>, view: map<Key, Packet>, repr: set<FullPacket>)
    reads repr
  {
    && packets.Keys == view.Keys
    && forall k :: k in packets ==>
         packets[k] in repr && packets[k].key == k && packets[k].Value() == view[k]
  }

  lemma FileOne(packets: map<Key, FullPacket>, view: map<Key, Packet>, repr: set<FullPacket>, p: FullPacket)
    requires FiledIn(packets, view, repr)
    ensures FiledIn(packets[p.key := p], view[p.key := p.Value()], repr + {p})
  {}

  lemma UnfileOne(packets: map<Key, FullPacket>, view: map<Key, Packet>, repr: set<FullPacket>, k: Key)
    requires FiledIn(packets, view, repr) && k in packets
    ensures packets[k] in repr && packets[k].key == k && k in view && packets[k].Value() == view[k]
    ensures FiledIn(packets - {k}, view - {k}, repr - {packets[k]})
  {}

  lemma UnfiledAgain(packets: map<Key, FullPacket>, view: map<Key, Packet>, repr: set<FullPacket>, p: FullPacket)
    requires FiledIn(packets, view, repr - {p})
    ensures FiledIn(packets, view, repr)
  {}

  /** Taking a key out and putting it back. */
  lemma PutBack(packets: map<Key, FullPacket>, view: map<Key, Packet>, k: Key, v: Packet)
    requires k in packets && k in view
    ensures (packets - {k})[k := packets[k]] == packets
    ensures (view - {k})[k := v] == view[k := v] && view[k := view[k]] == view
  {}

  lemma NothingToRemove(view: map<Key, Packet>, k: Key)
    requires k !in view
    ensures view - {k} == view && PacketSize(NewPacket) == PACKET_STRUCT_SIZE
  {}

  class Queue {
    var packets: map<Key, FullPacket>
    var queueEmpty: bool
    var maxDuration: nat
    var lastGc: nat
    const heap: Heap

    /** The value of the table. */
    ghost var view: map<Key, Packet>
    ghost var repr: set<FullPacket>

    constructor ()
      ensures Valid() && fresh(heap) && repr == {}
      ensures State() == EmptyStore && maxDuration == 0 && lastGc == 0
    {
      packets, queueEmpty, maxDuration, lastGc := map[], true, 0, 0;
      heap := new Heap();
      view, repr := map[], {};
    }

    ghost function State(): Store
      reads this
    {
      Store(view, queueEmpty)
    }

    ghost predicate Filed()
      reads `packets, `view, `repr, repr
    {
      FiledIn(packets, view, repr)
    }

    /** What was allocated is what the table reaches. */
    ghost predicate Valid()
      reads `packets, `view, `repr, repr, heap
    {
      Filed() && heap.inUse == Reachable(view)
    }

    lemma CountIsSize()
      requires Valid()
      ensures packets.Keys == view.Keys && |packets| == |view|
    {
      assert |packets.Keys| == |view.Keys|;
    }

    lemma IsFiled(k: Key)
      requires Valid()
      ensures k in packets <==> k in view
    {}

    /** Files a new holder. */
    method Create(k: Key) returns (p: FullPacket)
      requires Valid() && k !in packets
      modifies this`packets, this`view, this`repr, heap
      ensures Valid() && fresh(p) && repr == old(repr) + {p}
      ensures view == old(view)[k := NewPacket]
      ensures k in packets && packets[k] == p
    {
      hide Reachable, PacketSize, FiledIn;
      IsFiled(k);
      NothingToRemove(view, k);
      ReachableUpdate(view, k, NewPacket);
      heap.Malloc(PACKET_STRUCT_SIZE);
      p := new FullPacket(k);
      FileOne(packets, view, repr, p);
      packets := packets[k := p];
      view := view[k := NewPacket];
      repr := repr + {p};
    }

    /** Finds the holder for a key or files a new one; null when there is no memory for it. */
    method GetOrCreate(k: Key, mem: Memory) returns (p: FullPacket?)
      requires Valid()
      modifies this`packets, this`view, this`repr, heap
      ensures Valid() && fresh(repr - old(repr))
      ensures p == null <==> k !in old(view) && !mem.packet
      ensures p == null ==> view == old(view)
      ensures p != null ==> view == old(view)[k := Lookup(old(State()), k)]
      ensures p != null ==> k in packets && packets[k] == p && p in repr
    {
      hide Reachable;
      if k in packets {
        p := packets[k];
        assert view == view[k := view[k]];
      } else if mem.packet {
        p := Create(k);
      } else {
        p := null;
      }
    }

    /** Adds a fragment to a filed holder and checks whether the packet is full. */
    method Fill(p: FullPacket, frag: Fragment, now: nat, mem: Memory) returns (ok: bool, fullSize: nat)
      requires Valid() && frag.key in packets && packets[frag.key] == p
      modifies this`view, p, heap
      ensures Valid()
      ensures ok == (!HasOffset(old(view[frag.key]).frags, frag.offset) && mem.header && mem.data)
      ensures view == if ok then old(view)[frag.key := MarkFull(Extend(old(view[frag.key]), frag, now))] else old(view)
      ensures fullSize == if ok && view[frag.key].isFull then view[frag.key].fullSize else 0
    {
      hide Reachable, FragmentsSize, FiledIn;
      fullSize := 0;
      UnfileOne(packets, view, repr, frag.key);
      ReachableSplit(view, frag.key);
      ok := p.AddFragment(heap, frag, now, mem);
      if ok {
        var full := p.CheckFull();
        if full {
          fullSize := p.fullSize;
        }
        ReachableUpdate(view, frag.key, p.Value());
      }
      FileOne(packets - {frag.key}, view - {frag.key}, repr - {p}, p);
      PutBack(packets, view, frag.key, p.Value());
      assert repr - {p} + {p} == repr;
      view := view[frag.key := p.Value()];
    }

    method AddFragment(frag: Fragment, now: nat, mem: Memory) returns (ok: bool, fullSize: nat)
      requires Valid()
      modifies this`packets, this`view, this`repr, this`queueEmpty, repr, heap
      ensures Valid() && fresh(repr - old(repr))
      ensures var a := Add(old(State()), frag, now, mem);
              State() == a.store && ok == a.ok && fullSize == a.fullSize
    {
      hide Valid, MarkFull, Extend, HasOffset;
      ok, fullSize := false, 0;
      queueEmpty := false;
      var p := GetOrCreate(frag.key, mem);
      if p != null {
        ghost var held := view[frag.key];
        assert held == Lookup(old(State()), frag.key);
        ok, fullSize := Fill(p, frag, now, mem);
        assert view == old(view)[frag.key := view[frag.key]];
        assert view[frag.key] == if ok then MarkFull(Extend(held, frag, now)) else held;
      }
    }

    /** Frees a packet with all its fragments, copying them into `buffer` when there is one. */
    method Release(k: Key, buffer: array?<byte>)
      requires Valid() && k in packets
      requires buffer != null ==> AllFit(view[k].frags, buffer.Length)
      modifies this`packets, this`view, repr, heap, buffer
      ensures Valid()
      ensures packets == old(packets) - {k} && view == old(view) - {k}
      ensures buffer != null ==> buffer[..] == CopyAll(old(buffer[..]), old(view[k]).frags)
    {
      hide Reachable, FragmentsSize, FiledIn, CopyAll;
      UnfileOne(packets, view, repr, k);
      ReachableSplit(view, k);
      var p := packets[k];
      p.Drain(heap, buffer);
      UnfiledAgain(packets - {k}, view - {k}, repr, p);
      packets := packets - {k};
      view := view - {k};
      heap.Free(PACKET_STRUCT_SIZE);
    }

    /** Takes a full message out, in the order its fragments are listed. */
    method GetFullMessage(k: Key, buffer: array<byte>) returns (ok: bool, size: nat)
      requires Valid()
      requires k in view ==> AllFit(view[k].frags, buffer.Length)
      modifies this`packets, this`view, this`queueEmpty, repr, heap, buffer
      ensures Valid()
      ensures ok == (k in old(view) && old(view[k]).isFull && old(view[k]).fullSize <= buffer.Length)
      ensures State() == if ok then Remove(old(State()), k) else old(State())
      ensures buffer[..] == if ok then CopyAll(old(buffer[..]), old(view[k]).frags) else old(buffer[..])
      ensures ok ==> size == old(view[k]).fullSize && (queueEmpty <==> view == map[])
      ensures !ok ==> size == if k in view && !view[k].isFull then 0 else buffer.Length
    {
      hide Reachable, FragmentsSize, FiledIn, CopyAll, AllFit;
      size := buffer.Length;
      CountIsSize();
      if k !in packets {
        return false, size;
      }
      UnfileOne(packets, view, repr, k);
      if !packets[k].isFull {
        return false, 0;
      }
      if size < packets[k].fullSize {
        return false, size;
      }
      size := packets[k].fullSize;
      Release(k, buffer);
      CountIsSize();
      queueEmpty := |packets| == 0;
      ok := true;
    }

    /** Drops the packets that have been idle for too long. */
    method GarbageCollect(clock: seq<nat>) returns (ghost ran: bool, ghost dead: set<Key>, ghost at: map<Key, nat>)
      requires Valid()
      requires Readings(State(), clock)
      modifies this`packets, this`view, this`queueEmpty, this`lastGc, repr, heap
      ensures Valid()
      ensures ran == CollectionDue(clock[0], old(lastGc), maxDuration)
      ensures ran <==> maxDuration > 0 && (clock[0] - old(lastGc)) % 0x1_0000_0000_0000_0000 > 5000
      ensures lastGc == if ran then clock[1] else old(lastGc)
      ensures ran ==> DeadAt(old(State()), dead, maxDuration, clock, at)
      ensures State() == if ran then Collect(old(State()), dead) else old(State())
      ensures ran ==> (queueEmpty <==> view == map[])
    {
      hide Valid, CollectionDue, DeadAt;
      var due := CollectionDue(clock[0], lastGc, maxDuration);
      DueMeans(clock[0], lastGc, maxDuration);
      ran, dead, at := due, {}, map[];
      if !due {
        return;
      }
      lastGc := clock[1];
      dead, at := Sweep(clock);
      CountIsSize();
      queueEmpty := |packets| == 0;
    }

    method ReleaseIfExpired(k: Key, now: nat) returns (expired: bool)
      requires Valid() && k in view
      modifies this`packets, this`view, repr, heap
      ensures Valid()
      ensures expired == Expired(now, old(view)[k].lastRx, maxDuration)
      ensures view == if expired then old(view) - {k} else old(view)
    {
      hide Reachable, Expired, CopyAll;
      expired := Expired(now, packets[k].lastRx, maxDuration);
      if expired {
        Release(k, null);
      }
    }

    /** Tests every packet once and releases those that expired. */
    method Sweep(clock: seq<nat>) returns (ghost dead: set<Key>, ghost at: map<Key, nat>)
      requires Valid()
      requires Readings(State(), clock)
      modifies this`packets, this`view, repr, heap
      ensures Valid()
      ensures DeadAt(old(State()), dead, maxDuration, clock, at)
      ensures view == old(view) - dead
    {
      hide Valid, Expired, Swept, DeadAt;
      ghost var before := State();
      CountIsSize();
      SweptStart(before, maxDuration, clock);
      dead, at := {}, map[];
      var todo := packets.Keys;
      var reading := 2;
      while todo != {}
        invariant Valid()
        invariant Swept(before, view, todo, dead, at, reading, maxDuration, clock)
        decreases todo
      {
        var k :| k in todo;
        SweptHolds(before, view, todo, dead, at, reading, maxDuration, clock, k);
        ghost var current := view;
        var expired := ReleaseIfExpired(k, clock[reading]);
        SweptStep(before, current, todo, dead, at, reading, maxDuration, clock, k, expired);
        if expired {
          dead := dead + {k};
        }
        at := at[k := reading];
        todo := todo - {k};
        reading := reading + 1;
      }
      SweptEnd(before, view, dead, at, reading, maxDuration, clock);
    }
  }
}
