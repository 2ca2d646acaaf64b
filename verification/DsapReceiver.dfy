/** Receiving: the handler of fragment indications. */
module DsapReceiver {
  import opened Common
  import opened Fragments
  import opened DsapFrames
  import opened Reassembly
  import opened ReassemblyQueue

  class Receiver {
    const queue: Queue
    const buffer: array<byte>

    /** Whether a callback for received data is registered. */
    var registered: bool

    constructor ()
      ensures Valid() && queue.State() == EmptyStore
      ensures fresh(queue) && fresh(buffer)
    {
      queue := new Queue();
      buffer := new byte[MAX_FULL_PACKET_SIZE];
      registered := false;
    }

    method SetCallback(registered: bool)
      modifies `registered
      ensures this.registered == registered
    {
      this.registered := registered;
    }

    ghost predicate Valid()
      reads queue, queue.repr, queue.heap, buffer
    {
      && queue.Valid()
      && buffer.Length == MAX_FULL_PACKET_SIZE
      && InRange(queue.State())
    }

    /** Adds the fragment and, when it completes its packet, hands over the message. */
    method Deliver(frag: Fragment, now: nat, mem: Memory) returns (delivered: Option<seq<byte>>)
      requires Valid() && FragmentFits(frag)
      modifies queue`packets, queue`view, queue`repr, queue`queueEmpty, queue.repr, queue.heap, buffer
      ensures Valid() && fresh(queue.repr - old(queue.repr))
      ensures Received(queue.State(), delivered, buffer[..])
              == Receive(old(queue.State()), frag, now, mem, old(buffer[..]))
    {
      hide Queue.Valid, Add, CopyAll;
      AddInRange(queue.State(), frag, now, mem);
      Filed(queue.State(), frag, now, mem);
      delivered := None;
      var ok, fullSize := queue.AddFragment(frag, now, mem);
      if ok && fullSize != 0 {
        var got, size := queue.GetFullMessage(frag.key, buffer);
        delivered := Some(buffer[..size]);
        assert buffer[..size] == buffer[..][..size];
      }
    }

    /** The handler: a complete message goes to the callback; then a run of the
        collector if one is due.  Without a callback a complete message is lost,
        and the handler returns before the collector. */
    method OnFragment(payload: RxFrag, now: nat, mem: Memory, clock: seq<nat>)
      returns (handed: Option<seq<byte>>, ghost ran: bool, ghost dead: set<Key>, ghost at: map<Key, nat>)
      requires Valid() && FragmentFits(FragmentOf(payload))
      requires |clock| >= 3 + |queue.State().packets|
      modifies queue, queue.repr, queue.heap, buffer
      ensures Valid()
      ensures var r := Receive(old(queue.State()), FragmentOf(payload), now, mem, old(buffer[..]));
              && handed == (if registered then r.delivered else None)
              && buffer[..] == r.buffer
              && Readings(r.store, clock)
              && ran == (CollectionDue(clock[0], old(queue.lastGc), old(queue.maxDuration))
                         && (r.delivered.Some? ==> registered))
              && (ran ==> DeadAt(r.store, dead, old(queue.maxDuration), clock, at))
              && queue.State() == (if ran then Collect(r.store, dead) else r.store)
    {
      hide Queue.Valid, Add, CopyAll, Receive, DeadAt, CollectionDue, FragmentOf;
      ReceiveAddsAtMostOne(queue.State(), FragmentOf(payload), now, mem, buffer[..]);
      var delivered := Deliver(FragmentOf(payload), now, mem);
      if delivered.Some? && !registered {
        return None, false, {}, map[];
      }
      handed := delivered;
      ran, dead, at := queue.GarbageCollect(clock);
    }
  }

  lemma Filed(s: Store, f: Fragment, now: nat, mem: Memory)
    requires InRange(s) && FragmentFits(f)
    ensures var a := Add(s, f, now, mem);
            a.ok && a.fullSize != 0 ==>
              && f.key in a.store.packets
              && var p := a.store.packets[f.key];
                 p.isFull && p.fullSize == a.fullSize && PacketFits(p)
  {
    AddInRange(s, f, now, mem);
  }

  lemma ReceiveAddsAtMostOne(s: Store, f: Fragment, now: nat, mem: Memory, buffer: seq<byte>)
    requires InRange(s) && FragmentFits(f) && |buffer| == MAX_FULL_PACKET_SIZE
    ensures |Receive(s, f, now, mem, buffer).store.packets| <= |s.packets| + 1
  {
    hide CopyAll, InRange, Complete;
    var a := Add(s, f, now, mem).store.packets;
    assert a.Keys <= s.packets.Keys + {f.key};
    SizeOfSubset(a.Keys, s.packets.Keys + {f.key});
    SizeOfSubset((a - {f.key}).Keys, a.Keys);
    assert |a - {f.key}| == |(a - {f.key}).Keys|;
  }

  lemma SizeOfSubset<T>(a: set<T>, b: set<T>)
    requires a <= b
    ensures |a| <= |b|
  {
    assert b == a + (b - a);
  }
}
