/** Runs on a clock are runs of the reassembly queue, and on them a message whose
    fragments keep coming is never collected half way. */
module TimedDelivery {
  import opened Common
  import opened Fragments
  import opened Reassembly
  import opened ReassemblyRuns
  import opened GarbageCollection

  /** What a happening of a timed run is to the queue. */
  function EventOf(h: Happening, s: Timed, maxDuration: nat): Event {
    match h
    case Rx(f, at, mem, _) => Arrival(f, at, mem)
    case GcCall(clock, dead, _) =>
      Collection(if clock != [] && CollectionDue(clock[0], s.lastGc, maxDuration) then dead else {})
  }

  function Events(states: seq<Timed>, hs: seq<Happening>, maxDuration: nat): (es: seq<Event>)
    requires |states| == |hs| + 1
    ensures |es| == |hs|
    ensures forall i :: 0 <= i < |hs| ==> es[i] == EventOf(hs[i], states[i], maxDuration)
  {
    seq(|hs|, i requires 0 <= i < |hs| => EventOf(hs[i], states[i], maxDuration))
  }

  /** What an arrival leaves depends on the packets alone. */
  lemma ReceiveSame(s: Store, t: Store, f: Fragment, at: nat, mem: Memory, b: seq<byte>, c: seq<byte>)
    requires InRange(s) && InRange(t) && FragmentFits(f) && |b| == |c| == MAX_FULL_PACKET_SIZE
    requires s.packets == t.packets
    ensures Receive(s, f, at, mem, b).store == Receive(t, f, at, mem, c).store
  {
    hide InRange, CopyAll, Complete, HasOffset, Extend, PacketFits;
    assert Add(s, f, at, mem) == Add(t, f, at, mem);
  }

  lemma SamePackets(s: Timed, h: Happening, s': Timed, maxDuration: nat, r: State, ms: Messages)
    requires AllValid(ms) && Next(s, h, s', maxDuration) && Arrives(EventOf(h, s, maxDuration), ms)
    requires Usable(r) && r.store.packets == s.store.packets
    ensures Step(r, EventOf(h, s, maxDuration), ms).0.store.packets == s'.store.packets
  {
    hide CollectionDue, Expired, InRange, Receive, Filing, DeadAt, FragmentFits;
    if h.Rx? {
      PieceFits(h.f, ms[h.f.key]);
      ReceiveSame(s.store, r.store, h.f, h.at, h.mem, h.buffer, r.buffer);
    } else {
      assert s.store.packets - {} == s.store.packets;
    }
  }

  /** A timed run is a run of the queue: its packets are those of the events it
      stands for. */
  lemma {:induction false} TimedRunIsRun(states: seq<Timed>, hs: seq<Happening>, maxDuration: nat, ms: Messages,
                                         buffer: seq<byte>, n: nat)
    requires Reaches(states, hs, maxDuration) && n <= |hs|
    requires AllValid(ms) && Trace(Events(states, hs, maxDuration), ms) && |buffer| == MAX_FULL_PACKET_SIZE
    ensures Trace(Events(states, hs, maxDuration)[..n], ms)
    ensures Run(Events(states, hs, maxDuration)[..n], ms, buffer).store.packets == states[n].store.packets
  {
    hide Next, Step, EventOf;
    var es := Events(states, hs, maxDuration);
    if n > 0 {
      TimedRunIsRun(states, hs, maxDuration, ms, buffer, n - 1);
      assert es[..n][..n - 1] == es[..n - 1] && es[..n][n - 1] == es[n - 1];
      assert Next(states[n - 1], hs[n - 1], states[n - 1 + 1], maxDuration);
      SamePackets(states[n - 1], hs[n - 1], states[n], maxDuration, Run(es[..n - 1], ms, buffer), ms);
    }
  }

  // ------------------------------------------------------------ new pieces

  /** This arrival brings a piece of the message that did not arrive before. */
  ghost predicate BringsNew(es: seq<Event>, j: nat, k: Key)
    requires j < |es|
  {
    es[j].Arrival? && es[j].f.key == k && es[j].f.offset !in Arrived(es[..j], k)
  }

  /** No new piece but the first comes as late as `maxDuration + 1` seconds after
      some new piece before it: the sender and the network do not pause that long. */
  ghost predicate KeepsComing(es: seq<Event>, k: Key, maxDuration: nat) {
    forall j :: 0 <= j < |es| && BringsNew(es, j, k) && Arrived(es[..j], k) != {} ==>
      exists i :: 0 <= i < j && BringsNew(es, i, k) && es[j].now < es[i].now + (maxDuration + 1) * 1000
  }

  /** Its fragments find memory, and none comes after it was complete. */
  ghost predicate CleanArrivals(es: seq<Event>, k: Key, ms: Messages)
    requires AllValid(ms) && k in ms
  {
    forall i :: 0 <= i < |es| && es[i].Arrival? ==> UndisturbedAt(es, i, k, ms)
  }

  lemma ArrivedGrows(es: seq<Event>, i: nat, j: nat, k: Key)
    requires i <= j <= |es|
    ensures Arrived(es[..i], k) <= Arrived(es[..j], k)
  {
    forall o | o in Arrived(es[..i], k)
      ensures o in Arrived(es[..j], k)
    {
      var a :| 0 <= a < i && es[..i][a].Arrival? && es[..i][a].f.key == k && es[..i][a].f.offset == o;
      assert es[..j][a] == es[..i][a];
    }
  }

  lemma ArrivedOneMore(es: seq<Event>, j: nat, k: Key)
    requires j < |es|
    ensures Arrived(es[..j + 1], k)
            == Arrived(es[..j], k) + (if es[j].Arrival? && es[j].f.key == k then {es[j].f.offset} else {})
  {
    hide Arrived;
    assert es[..j + 1][..j] == es[..j] && es[..j + 1][j] == es[j];
    ArrivedStep(es[..j + 1], k);
  }

  /** Until all pieces are there a new one is still to come: the next one. */
  lemma {:induction false} NextNew(es: seq<Event>, n: nat, m: nat, k: Key) returns (j: nat)
    requires n <= m <= |es| && Arrived(es[..n], k) != Arrived(es[..m], k)
    ensures n <= j < m && BringsNew(es, j, k) && Arrived(es[..j], k) == Arrived(es[..n], k)
    decreases m
  {
    hide Arrived;
    ArrivedOneMore(es, m - 1, k);
    if Arrived(es[..n], k) != Arrived(es[..m - 1], k) {
      j := NextNew(es, n, m - 1, k);
    } else {
      j := m - 1;
    }
  }

  /** A new piece before the next one is a new piece so far. */
  lemma EarlierNew(es: seq<Event>, n: nat, i: nat, j: nat, k: Key)
    requires n <= |es| && i < j < |es| && BringsNew(es, i, k) && Arrived(es[..j], k) == Arrived(es[..n], k)
    ensures i < n
  {
    hide Arrived;
    if n <= i {
      ArrivedGrows(es, n, i, k);
      ArrivedOneMore(es, i, k);
      ArrivedGrows(es, i + 1, j, k);
      assert false;
    }
  }

  // ----------------------------------------------------------------- times

  lemma NextGoesOn(s: Timed, h: Happening, s': Timed, maxDuration: nat)
    requires Next(s, h, s', maxDuration)
    ensures s.now <= s'.now && (h.Rx? ==> s'.now == h.at)
  {
    hide Receive, Filing, CollectionDue, DeadAt, InRange;
  }

  lemma {:induction false} TimeIsMonotone(states: seq<Timed>, hs: seq<Happening>, maxDuration: nat, i: nat, j: nat)
    requires Reaches(states, hs, maxDuration) && i <= j <= |hs|
    ensures states[i].now <= states[j].now
    decreases j
  {
    hide Next;
    if i < j {
      TimeIsMonotone(states, hs, maxDuration, i, j - 1);
      assert Next(states[j - 1], hs[j - 1], states[j - 1 + 1], maxDuration);
      NextGoesOn(states[j - 1], hs[j - 1], states[j], maxDuration);
    }
  }

  /** The packet under `k` was last heard of when its last new piece came. */
  ghost predicate HeardOf(s: Timed, es: seq<Event>, n: nat, k: Key)
    requires n <= |es|
  {
    && Held(s.store, k) != {}
    && k in s.store.packets
    && forall i :: 0 <= i < n && BringsNew(es, i, k) ==> es[i].now <= s.store.packets[k].lastRx
  }

  /** A piece that is held now and was not before has just come. */
  lemma NewPieceTime(s: Store, f: Fragment, at: nat, mem: Memory, buffer: seq<byte>)
    requires InRange(s) && FragmentFits(f) && |buffer| == MAX_FULL_PACKET_SIZE
    requires f.offset !in Held(s, f.key) && f.offset in Held(Receive(s, f, at, mem, buffer).store, f.key)
    ensures var packets := Receive(s, f, at, mem, buffer).store.packets;
            f.key in packets && packets[f.key].lastRx == at
  {
    hide Receive, InRange, FragmentFits;
    ReceivedPackets(s, f, at, mem, buffer, f.key);
  }

  /** A fragment of another message, or one that is no news, leaves the packet. */
  lemma OldPacketStays(s: Store, f: Fragment, at: nat, mem: Memory, buffer: seq<byte>, k: Key)
    requires InRange(s) && FragmentFits(f) && |buffer| == MAX_FULL_PACKET_SIZE
    requires k in s.packets && (f.key != k || f.offset in Held(s, k))
    ensures var packets := Receive(s, f, at, mem, buffer).store.packets;
            k in packets && packets[k] == s.packets[k]
  {
    hide CopyAll, InRange, Complete, Extend;
    OffsetsOfHas(Lookup(s, f.key).frags, f.offset);
  }
  // ------------------------------------------------------------ the theorem

  /** The message under `k` is under way: some of its pieces have come, not all. */
  ghost predicate UnderWay(es: seq<Event>, n: nat, k: Key, ms: Messages)
    requires AllValid(ms) && k in ms && n <= |es|
  {
    Arrived(es[..n], k) != {} && Arrived(es[..n], k) != ms[k].Offsets()
  }

  /** An arrival keeps the packet's time right. */
  lemma ArrivalHeard(s: Timed, h: Happening, s': Timed, maxDuration: nat, es: seq<Event>, n: nat, k: Key)
    requires Next(s, h, s', maxDuration) && h.Rx? && n < |es| && es[n] == EventOf(h, s, maxDuration)
    requires Held(s.store, k) == Arrived(es[..n], k) && Held(s'.store, k) == Arrived(es[..n + 1], k) != {}
    requires Held(s.store, k) != {} ==> HeardOf(s, es, n, k)
    requires forall i :: 0 <= i < n && BringsNew(es, i, k) ==> es[i].now <= s.now
    requires Held(s.store, k) == {} ==> forall i :: 0 <= i < n ==> !BringsNew(es, i, k)
    ensures HeardOf(s', es, n + 1, k)
  {
    hide Receive, Filing, CollectionDue, DeadAt, InRange, FragmentFits, Arrived;
    ArrivedOneMore(es, n, k);
    if BringsNew(es, n, k) {
      NewPieceTime(s.store, h.f, h.at, h.mem, h.buffer);
    } else {
      OldPacketStays(s.store, h.f, h.at, h.mem, h.buffer, k);
    }
  }

  /** A collection that comes while the message is under way leaves its packet: the
      next new piece comes after it, and soon enough after an earlier one. */
  lemma CollectionSpares(states: seq<Timed>, hs: seq<Happening>, maxDuration: nat, ms: Messages, k: Key, n: nat)
    requires Prompt(states, hs, maxDuration, ms, k) && n < |hs| && hs[n].GcCall?
    requires UnderWay(Events(states, hs, maxDuration), n, k, ms)
    requires HeardOf(states[n], Events(states, hs, maxDuration), n, k)
    ensures k !in Events(states, hs, maxDuration)[n].dead
    ensures k in states[n + 1].store.packets && states[n + 1].store.packets[k] == states[n].store.packets[k]
  {
    hide Next, Arrived, CollectionDue, Fresh, CleanArrivals, Trace;
    var es := Events(states, hs, maxDuration);
    var s, s' := states[n], states[n + 1];
    assert es[..|es|] == es;
    var j := NextNew(es, n, |es|, k);
    var i :| 0 <= i < j && BringsNew(es, i, k) && es[j].now < es[i].now + (maxDuration + 1) * 1000;
    EarlierNew(es, n, i, j, k);
    assert s.store.packets[k].lastRx <= s.now by { PacketWasHeard(states, hs, maxDuration, n, k); }
    TimeIsMonotone(states, hs, maxDuration, n + 1, j);
    assert Next(states[j], hs[j], states[j + 1], maxDuration) && Next(s, hs[n], s', maxDuration);
    NextGoesOn(states[j], hs[j], states[j + 1], maxDuration);
    TimeIsMonotone(states, hs, maxDuration, n + 1, j + 1);
    CallLeaves(s, hs[n], s', maxDuration);
    if CollectionDue(hs[n].clock[0], s.lastGc, maxDuration) {
      var reading := TestedAt(s, hs[n], s', maxDuration, k);
      if k in hs[n].dead { DeadAreGone(s, hs[n], s', maxDuration, k); }
    }
  }

  lemma PacketWasHeard(states: seq<Timed>, hs: seq<Happening>, maxDuration: nat, n: nat, k: Key)
    requires maxDuration > 0 && Reaches(states, hs, maxDuration) && n <= |hs|
    requires forall j :: 0 <= j <= |hs| ==> states[j].now < UPTIME_LIMIT_MS
    requires k in states[n].store.packets
    ensures states[n].store.packets[k].lastRx <= states[n].now
  {
    hide Next;
    RunStaysFresh(states, hs, maxDuration, n);
    assert PacketFresh(states[n].store.packets[k], states[n].filed[k], states[n], maxDuration);
  }

  lemma DeadAreGone(s: Timed, h: Happening, s': Timed, maxDuration: nat, k: Key)
    requires h.GcCall? && Next(s, h, s', maxDuration) && |h.clock| > 0
    requires CollectionDue(h.clock[0], s.lastGc, maxDuration) && k in h.dead
    ensures k !in s'.store.packets
  {
    hide CollectionDue, DeadAt, Filing;
  }

  /** The run is on a clock below its limit; what arrives under `k` are pieces of
      its message, all of them in the end, undisturbed by each other and without a
      long pause. */
  ghost predicate Prompt(states: seq<Timed>, hs: seq<Happening>, maxDuration: nat, ms: Messages, k: Key) {
    && maxDuration > 0 && Reaches(states, hs, maxDuration)
    && (forall j :: 0 <= j <= |hs| ==> states[j].now < UPTIME_LIMIT_MS)
    && AllValid(ms) && k in ms
    && var es := Events(states, hs, maxDuration);
       && Trace(es, ms) && CleanArrivals(es, k, ms) && KeepsComing(es, k, maxDuration)
       && Arrived(es, k) == ms[k].Offsets()
  }

  lemma OneMoreUndisturbed(es: seq<Event>, n: nat, k: Key, ms: Messages)
    requires AllValid(ms) && k in ms && n < |es| && Undisturbed(es[..n], k, ms) && UndisturbedAt(es, n, k, ms)
    ensures Undisturbed(es[..n + 1], k, ms)
  {
    hide UndisturbedAt;
    var longer := es[..n + 1];
    forall i | 0 <= i < |longer|
      ensures UndisturbedAt(longer, i, k, ms)
    {
      SamePrefix(es, n + 1, i, k, ms);
      if i < n {
        assert UndisturbedAt(es[..n], i, k, ms);
        SamePrefix(es, n, i, k, ms);
      }
    }
  }

  lemma SamePrefix(es: seq<Event>, n: nat, i: nat, k: Key, ms: Messages)
    requires AllValid(ms) && k in ms && i < n <= |es|
    ensures UndisturbedAt(es[..n], i, k, ms) <==> UndisturbedAt(es, i, k, ms)
  {
    assert es[..n][..i] == es[..i] && es[..n][i] == es[i];
  }

  /** What the packet under `k` holds, as long as nothing disturbed it. */
  lemma HeldIsArrived(states: seq<Timed>, hs: seq<Happening>, maxDuration: nat, ms: Messages, k: Key, n: nat)
    requires Reaches(states, hs, maxDuration) && n <= |hs| && AllValid(ms) && k in ms
    requires Trace(Events(states, hs, maxDuration), ms)
    requires Undisturbed(Events(states, hs, maxDuration)[..n], k, ms)
    ensures var es := Events(states, hs, maxDuration);
            Held(states[n].store, k) == if Arrived(es[..n], k) == ms[k].Offsets() then {} else Arrived(es[..n], k)
  {
    assert |states| == |hs| + 1;
    hide Reaches, Undisturbed, Arrived, Step;
    var buffer := seq(MAX_FULL_PACKET_SIZE, _ => 0);
    TimedRunIsRun(states, hs, maxDuration, ms, buffer, n);
    UndisturbedHolds(Events(states, hs, maxDuration)[..n], ms, buffer, k);
  }

  lemma NewCameBefore(states: seq<Timed>, hs: seq<Happening>, maxDuration: nat, k: Key, i: nat, n: nat)
    requires Reaches(states, hs, maxDuration) && i < n <= |hs|
    requires BringsNew(Events(states, hs, maxDuration), i, k)
    ensures Events(states, hs, maxDuration)[i].now <= states[n].now
    ensures Arrived(Events(states, hs, maxDuration)[..n], k) != {}
  {
    hide Next, Arrived;
    var es := Events(states, hs, maxDuration);
    assert Next(states[i], hs[i], states[i + 1], maxDuration);
    NextGoesOn(states[i], hs[i], states[i + 1], maxDuration);
    TimeIsMonotone(states, hs, maxDuration, i + 1, n);
    ArrivedOneMore(es, i, k);
    ArrivedGrows(es, i + 1, n, k);
    assert es[i].f.offset in Arrived(es[..n], k);
  }

  /** No collection catches a message whose pieces keep coming. */
  lemma {:induction false} StaysTogether(states: seq<Timed>, hs: seq<Happening>, maxDuration: nat, ms: Messages, k: Key,
                                         n: nat)
    requires Prompt(states, hs, maxDuration, ms, k) && n <= |hs|
    ensures var es := Events(states, hs, maxDuration);
            && Undisturbed(es[..n], k, ms)
            && (UnderWay(es, n, k, ms) ==> HeardOf(states[n], es, n, k))
  {
    hide Next, Arrived, Undisturbed, HeardOf, KeepsComing, EventOf;
    var es := Events(states, hs, maxDuration);
    if n == 0 {
      NothingYet(es, k, ms);
    } else {
      StaysTogether(states, hs, maxDuration, ms, k, n - 1);
      if hs[n - 1].GcCall? && UnderWay(es, n - 1, k, ms) {
        CollectionSpares(states, hs, maxDuration, ms, k, n - 1);
      }
      EventKinds(states, hs, maxDuration, n - 1);
      assert UndisturbedAt(es, n - 1, k, ms);
      OneMoreUndisturbed(es, n - 1, k, ms);
      StaysHeard(states, hs, maxDuration, ms, k, n - 1);
    }
  }

  lemma NothingYet(es: seq<Event>, k: Key, ms: Messages)
    requires AllValid(ms) && k in ms
    ensures Undisturbed(es[..0], k, ms) && !UnderWay(es, 0, k, ms)
  {}

  lemma EventKinds(states: seq<Timed>, hs: seq<Happening>, maxDuration: nat, n: nat)
    requires |states| == |hs| + 1 && n < |hs|
    ensures Events(states, hs, maxDuration)[n].Arrival? <==> hs[n].Rx?
  {}

  lemma StaysHeard(states: seq<Timed>, hs: seq<Happening>, maxDuration: nat, ms: Messages, k: Key, n: nat)
    requires Prompt(states, hs, maxDuration, ms, k) && n < |hs|
    requires var es := Events(states, hs, maxDuration);
             && Undisturbed(es[..n], k, ms) && Undisturbed(es[..n + 1], k, ms)
             && (UnderWay(es, n, k, ms) ==> HeardOf(states[n], es, n, k))
    ensures var es := Events(states, hs, maxDuration);
            UnderWay(es, n + 1, k, ms) ==> HeardOf(states[n + 1], es, n + 1, k)
  {
    hide Next, Arrived, Undisturbed, KeepsComing, CleanArrivals;
    var es := Events(states, hs, maxDuration);
    if UnderWay(es, n + 1, k, ms) {
      HeldIsArrived(states, hs, maxDuration, ms, k, n);
      HeldIsArrived(states, hs, maxDuration, ms, k, n + 1);
      ArrivedOneMore(es, n, k);
      if hs[n].Rx? {
        assert Arrived(es[..n], k) != ms[k].Offsets() by { NotCompleteBefore(es, n, k, ms); }
        forall i | 0 <= i < n && BringsNew(es, i, k)
          ensures es[i].now <= states[n].now && Arrived(es[..n], k) != {}
        {
          NewCameBefore(states, hs, maxDuration, k, i, n);
        }
        assert Next(states[n], hs[n], states[n + 1], maxDuration);
        ArrivalHeard(states[n], hs[n], states[n + 1], maxDuration, es, n, k);
      } else {
        CollectionSpares(states, hs, maxDuration, ms, k, n);
      }
    }
  }

  lemma NotCompleteBefore(es: seq<Event>, n: nat, k: Key, ms: Messages)
    requires AllValid(ms) && k in ms && n < |es| && CleanArrivals(es, k, ms) && es[n].Arrival?
    requires Arrived(es[..n + 1], k) != ms[k].Offsets()
    ensures Arrived(es[..n], k) != ms[k].Offsets()
  {
    hide Arrived;
    ArrivedOneMore(es, n, k);
    assert UndisturbedAt(es, n, k, ms);
  }

  /** A message whose new pieces come less than `maxDuration + 1` seconds apart is
      never collected half way, whenever the collector is called, and so it is
      delivered exactly once. */
  lemma PromptMessageIsDelivered(states: seq<Timed>, hs: seq<Happening>, maxDuration: nat, ms: Messages,
                                 buffer: seq<byte>, k: Key)
    requires Prompt(states, hs, maxDuration, ms, k) && |buffer| == MAX_FULL_PACKET_SIZE
    ensures var es := Events(states, hs, maxDuration);
            && Undisturbed(es, k, ms)
            && Deliveries(es, k, ms, buffer) == 1
            && forall i :: 0 <= i < |hs| && DeliversKey(DeliveredAt(es, i, ms, buffer), k) ==>
                 DeliveredAt(es, i, ms, buffer).value.bytes == ms[k].bytes
  {
    assert |states| == |hs| + 1;
    hide Reaches, Arrived, Undisturbed, KeepsComing, CleanArrivals, Step;
    var es := Events(states, hs, maxDuration);
    StaysTogether(states, hs, maxDuration, ms, k, |hs|);
    assert es[..|hs|] == es;
    DeliveredExactlyOnce(es, ms, buffer, k);
    forall i | 0 <= i < |hs| && DeliversKey(DeliveredAt(es, i, ms, buffer), k)
      ensures DeliveredAt(es, i, ms, buffer).value.bytes == ms[k].bytes
    {
      DeliveriesAreOriginals(es, i, ms, buffer);
    }
  }

  /** With the collector switched off by the limit 0 a message whose pieces all come
      is delivered exactly once, however long the pauses between them are. */
  lemma DeliveredHoweverSlow(states: seq<Timed>, hs: seq<Happening>, ms: Messages, buffer: seq<byte>, k: Key)
    requires Reaches(states, hs, 0) && AllValid(ms) && k in ms && |buffer| == MAX_FULL_PACKET_SIZE
    requires var es := Events(states, hs, 0);
             Trace(es, ms) && CleanArrivals(es, k, ms) && Arrived(es, k) == ms[k].Offsets()
    ensures var es := Events(states, hs, 0);
            && Deliveries(es, k, ms, buffer) == 1
            && (forall i :: 0 <= i < |hs| && DeliversKey(DeliveredAt(es, i, ms, buffer), k) ==>
                  DeliveredAt(es, i, ms, buffer).value.bytes == ms[k].bytes)
            && Run(es, ms, buffer).store.packets == states[|hs|].store.packets
  {
    assert |states| == |hs| + 1;
    hide Reaches, Arrived, Step, Next;
    var es := Events(states, hs, 0);
    forall i | 0 <= i < |es|
      ensures UndisturbedAt(es, i, k, ms)
    {}
    DeliveredExactlyOnce(es, ms, buffer, k);
    TimedRunIsRun(states, hs, 0, ms, buffer, |hs|);
    assert es[..|hs|] == es;
    forall i | 0 <= i < |hs| && DeliversKey(DeliveredAt(es, i, ms, buffer), k)
      ensures DeliveredAt(es, i, ms, buffer).value.bytes == ms[k].bytes
    {
      DeliveriesAreOriginals(es, i, ms, buffer);
    }
  }
}
