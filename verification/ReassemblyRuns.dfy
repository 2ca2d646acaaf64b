/** Whole runs of the reassembly queue: what is delivered, when, and what it
    costs, for every order of arrivals, duplicates and collections. */
module ReassemblyRuns {
  import opened Common
  import opened Tiling
  import opened Fragments
  import opened Reassembly

  type Messages = map<Key, Message>

  /** One step of a run.  A collection may remove any packets at any time. */
  datatype Event =
    | Arrival(f: Fragment, now: nat, mem: Memory)
    | Collection(dead: set<Key>)

  datatype Delivery = Delivery(key: Key, bytes: seq<byte>)

  /** The queue, and the static buffer messages are rebuilt in. */
  datatype State = State(store: Store, buffer: seq<byte>)

  ghost predicate AllValid(ms: Messages) {
    forall k :: k in ms ==> ms[k].Valid()
  }

  /** What arrives under one key are pieces of one message. */
  ghost predicate Arrives(e: Event, ms: Messages)
    requires AllValid(ms)
  {
    e.Arrival? ==> e.f.key in ms && ms[e.f.key].IsPiece(e.f)
  }

  ghost predicate Trace(es: seq<Event>, ms: Messages)
    requires AllValid(ms)
  {
    forall i :: 0 <= i < |es| ==> Arrives(es[i], ms)
  }

  lemma PieceFits(f: Fragment, m: Message)
    requires m.Valid() && m.IsPiece(f)
    ensures FragmentFits(f)
  {
    assert f == m.Piece(f.key, f.offset);
  }

  ghost predicate Usable(s: State) {
    InRange(s.store) && |s.buffer| == MAX_FULL_PACKET_SIZE
  }

  ghost function Step(s: State, e: Event, ms: Messages): (r: (State, Option<Delivery>))
    requires AllValid(ms) && Arrives(e, ms) && Usable(s)
    ensures Usable(r.0)
  {
    match e
    case Arrival(f, now, mem) =>
      PieceFits(f, ms[f.key]);
      var r := Receive(s.store, f, now, mem, s.buffer);
      (State(r.store, r.buffer),
       if r.delivered.Some? then Some(Delivery(f.key, r.delivered.value)) else None)
    case Collection(dead) =>
      (State(Collect(s.store, dead), s.buffer), None)
  }

  /** The state after a run that starts with an empty queue and any buffer. */
  ghost function Run(es: seq<Event>, ms: Messages, buffer: seq<byte>): (s: State)
    requires AllValid(ms) && Trace(es, ms) && |buffer| == MAX_FULL_PACKET_SIZE
    ensures Usable(s)
  {
    if es == [] then State(EmptyStore, buffer)
    else Step(Run(es[..|es| - 1], ms, buffer), es[|es| - 1], ms).0
  }

  /** What step `i` of a run hands to the application. */
  ghost function DeliveredAt(es: seq<Event>, i: nat, ms: Messages, buffer: seq<byte>): Option<Delivery>
    requires AllValid(ms) && Trace(es, ms) && |buffer| == MAX_FULL_PACKET_SIZE && i < |es|
  {
    Step(Run(es[..i], ms, buffer), es[i], ms).1
  }

  // ------------------------------------------------------- the packet invariant

  /** A packet under construction holds different pieces of its message but not
      all; its full size is known exactly when it holds the last piece. */
  ghost predicate UnderConstruction(p: Packet, m: Message)
    requires m.Valid()
  {
    && PiecesOf(p.frags, m)
    && OffsetsOf(p.frags) != m.Offsets()
    && !p.isFull
    && p.fullSize == (if HasLast(p.frags, m) then |m.bytes| else 0)
  }

  ghost predicate HasLast(fs: seq<Stored>, m: Message) {
    exists i :: 0 <= i < |fs| && m.PieceEnd(fs[i].offset) == |m.bytes|
  }

  lemma NewIsUnderConstruction(m: Message)
    requires m.Valid()
    ensures UnderConstruction(NewPacket, m)
  {
    assert m.IsOffset(0);
    assert 0 in m.Offsets() && 0 !in OffsetsOf([]);
  }

  lemma OffsetsOfHas(fs: seq<Stored>, o: nat)
    ensures o in OffsetsOf(fs) <==> HasOffset(fs, o)
  {
  }

  /** Adding a piece that is not there yet. */
  lemma ExtendKeepsPieces(p: Packet, m: Message, f: Fragment, now: nat)
    requires m.Valid() && UnderConstruction(p, m) && m.IsPiece(f) && !HasOffset(p.frags, f.offset)
    ensures var q := Extend(p, f, now);
            && PiecesOf(q.frags, m)
            && OffsetsOf(q.frags) == OffsetsOf(p.frags) + {f.offset}
            && q.fullSize == (if HasLast(q.frags, m) then |m.bytes| else 0)
  {
    hide Multiple;
    var q := Extend(p, f, now);
    var s := Stored(f.offset, f.bytes);
    assert f == m.Piece(f.key, f.offset) && m.IsStoredPiece(s);
    assert forall i :: 0 < i < |q.frags| ==> q.frags[i] == p.frags[i - 1];
    assert q.frags[0] == s;
    forall o
      ensures o in OffsetsOf(q.frags) <==> o in OffsetsOf(p.frags) + {f.offset}
    {
      if o in OffsetsOf(p.frags) {
        var i :| 0 <= i < |p.frags| && p.frags[i].offset == o;
        assert q.frags[i + 1].offset == o;
      }
    }
    if HasLast(p.frags, m) {
      var i :| 0 <= i < |p.frags| && m.PieceEnd(p.frags[i].offset) == |m.bytes|;
      assert m.PieceEnd(q.frags[i + 1].offset) == |m.bytes|;
    }
    assert f.last <==> m.PieceEnd(q.frags[0].offset) == |m.bytes|;
    if f.last {
      assert f.offset + |f.bytes| == |m.bytes|;
    } else if HasLast(q.frags, m) {
      var i :| 0 <= i < |q.frags| && m.PieceEnd(q.frags[i].offset) == |m.bytes|;
      assert m.PieceEnd(p.frags[i - 1].offset) == |m.bytes|;
    }
  }

  /** The receiver considers the packet complete exactly when it holds every piece. */
  lemma CompleteIffAllPieces(p: Packet, m: Message)
    requires m.Valid() && PiecesOf(p.frags, m) && !p.isFull
    requires p.fullSize == (if HasLast(p.frags, m) then |m.bytes| else 0)
    ensures Complete(p) <==> OffsetsOf(p.frags) == m.Offsets()
    ensures Complete(p) ==> p.fullSize == |m.bytes|
  {
    SizeSumDecidesCompleteness(p.frags, m);
    if OffsetsOf(p.frags) == m.Offsets() {
      var o := LastPieceExists(m);
      assert o in OffsetsOf(p.frags);
      var i :| 0 <= i < |p.frags| && p.frags[i].offset == o;
      assert m.PieceEnd(p.frags[i].offset) == |m.bytes|;
    }
  }

  ghost function Held(s: Store, k: Key): set<nat> {
    OffsetsOf(Lookup(s, k).frags)
  }

  /** The arrival brings something: it is not a duplicate and there is memory for it. */
  ghost predicate IsNew(s: Store, f: Fragment, mem: Memory) {
    f.offset !in Held(s, f.key) && (f.key in s.packets || mem.packet) && mem.header && mem.data
  }

  lemma IgnoredPiece(s: Store, f: Fragment, now: nat, mem: Memory, buffer: seq<byte>)
    requires InRange(s) && FragmentFits(f) && |buffer| == MAX_FULL_PACKET_SIZE
    requires !IsNew(s, f, mem)
    ensures var r := Receive(s, f, now, mem, buffer);
            && r.delivered == None
            && forall k :: Lookup(r.store, k) == Lookup(s, k)
  {
    OffsetsOfHas(Lookup(s, f.key).frags, f.offset);
  }

  /** A new piece completes its packet exactly when no other piece was missing:
      the message is then delivered and the packet is gone; otherwise the piece is kept. */
  lemma NewPiece(s: Store, f: Fragment, now: nat, mem: Memory, buffer: seq<byte>, m: Message)
    requires InRange(s) && FragmentFits(f) && |buffer| == MAX_FULL_PACKET_SIZE
    requires m.Valid() && m.IsPiece(f) && UnderConstruction(Lookup(s, f.key), m) && IsNew(s, f, mem)
    ensures var r := Receive(s, f, now, mem, buffer);
            && (forall k :: k != f.key ==> Lookup(r.store, k) == Lookup(s, k))
            && if Held(s, f.key) + {f.offset} == m.Offsets() then
                 r.delivered == Some(m.bytes) && Lookup(r.store, f.key) == NewPacket
               else
                 && r.delivered == None
                 && UnderConstruction(Lookup(r.store, f.key), m)
                 && Held(r.store, f.key) == Held(s, f.key) + {f.offset}
  {
    hide Multiple, CopyAll, Message.IsPiece, Message.Offsets, Complete, Extend, PacketFits, CopyAll;
    var p := Lookup(s, f.key);
    OffsetsOfHas(p.frags, f.offset);
    var q := Extend(p, f, now);
    ExtendKeepsPieces(p, m, f, now);
    ExtendIsOpen(p, f, now);
    CompleteIffAllPieces(q, m);
    AddInRange(s, f, now, mem);
    var a := Add(s, f, now, mem);
    assert a.store.packets[f.key] == MarkFull(q);
    if Complete(q) {
      assert PacketFits(a.store.packets[f.key]);
      CopyAllRebuilds(buffer, q.frags, m);
    }
  }

  lemma ExtendIsOpen(p: Packet, f: Fragment, now: nat)
    ensures Extend(p, f, now).isFull == p.isFull
  {}

  /** What the queue holds of each message after an arrival. */
  lemma PieceArrives(s: Store, f: Fragment, now: nat, mem: Memory, buffer: seq<byte>, m: Message)
    requires InRange(s) && FragmentFits(f) && |buffer| == MAX_FULL_PACKET_SIZE
    requires m.Valid() && m.IsPiece(f) && UnderConstruction(Lookup(s, f.key), m)
    ensures var store := Receive(s, f, now, mem, buffer).store;
            && (forall k :: k != f.key ==> Held(store, k) == Held(s, k))
            && Held(store, f.key) == if !IsNew(s, f, mem) then Held(s, f.key)
                                     else if Held(s, f.key) + {f.offset} == m.Offsets() then {}
                                     else Held(s, f.key) + {f.offset}
    ensures Held(s, f.key) != m.Offsets() && f.offset in m.Offsets()
  {
    hide Multiple, Receive, InRange, FragmentFits;
    if IsNew(s, f, mem) {
      NewPiece(s, f, now, mem, buffer, m);
    } else {
      IgnoredPiece(s, f, now, mem, buffer);
    }
  }

  // ------------------------------------------------------------ all runs

  ghost predicate Consistent(s: State, ms: Messages)
    requires AllValid(ms)
  {
    && Usable(s)
    && s.store.packets.Keys <= ms.Keys
    && forall k :: k in ms ==> UnderConstruction(Lookup(s.store, k), ms[k])
  }

  lemma ArrivalKeepsConsistent(s: State, f: Fragment, now: nat, mem: Memory, ms: Messages)
    requires AllValid(ms) && Arrives(Arrival(f, now, mem), ms) && Consistent(s, ms)
    ensures Consistent(Step(s, Arrival(f, now, mem), ms).0, ms)
    ensures Step(s, Arrival(f, now, mem), ms).1
            == (if IsNew(s.store, f, mem) && Held(s.store, f.key) + {f.offset} == ms[f.key].Offsets()
                then Some(Delivery(f.key, ms[f.key].bytes)) else None)
  {
    hide Multiple, UnderConstruction, IsNew, Held, Receive, Message.Offsets, InRange, FragmentFits;
    PieceFits(f, ms[f.key]);
    assert Receive(s.store, f, now, mem, s.buffer).store.packets.Keys <= ms.Keys by {
      ReceiveKeys(s.store, f, now, mem, s.buffer);
    }
    if IsNew(s.store, f, mem) {
      NewPiece(s.store, f, now, mem, s.buffer, ms[f.key]);
      NewIsUnderConstruction(ms[f.key]);
    } else {
      IgnoredPiece(s.store, f, now, mem, s.buffer);
    }
  }

  lemma ReceiveKeys(s: Store, f: Fragment, now: nat, mem: Memory, buffer: seq<byte>)
    requires InRange(s) && FragmentFits(f) && |buffer| == MAX_FULL_PACKET_SIZE
    ensures Receive(s, f, now, mem, buffer).store.packets.Keys <= s.packets.Keys + {f.key}
  {
    hide CopyAll, InRange, Complete;
  }

  lemma StepKeepsConsistent(s: State, e: Event, ms: Messages)
    requires AllValid(ms) && Arrives(e, ms) && Consistent(s, ms)
    ensures Consistent(Step(s, e, ms).0, ms)
    ensures e.Arrival? ==>
              var all := ms[e.f.key].Offsets();
              Step(s, e, ms).1 == (if IsNew(s.store, e.f, e.mem) && Held(s.store, e.f.key) + {e.f.offset} == all
                                   then Some(Delivery(e.f.key, ms[e.f.key].bytes)) else None)
  {
    hide Multiple, UnderConstruction, IsNew, Held, Receive, Message.Offsets;
    match e
    case Arrival(f, now, mem) =>
      ArrivalKeepsConsistent(s, f, now, mem, ms);
    case Collection(dead) =>
      forall k | k in ms
        ensures UnderConstruction(Lookup(Step(s, e, ms).0.store, k), ms[k])
      {
        NewIsUnderConstruction(ms[k]);
      }
  }

  lemma {:induction false} RunIsConsistent(es: seq<Event>, ms: Messages, buffer: seq<byte>)
    requires AllValid(ms) && Trace(es, ms) && |buffer| == MAX_FULL_PACKET_SIZE
    ensures Consistent(Run(es, ms, buffer), ms)
    decreases |es|
  {
    if es == [] {
      forall k | k in ms
        ensures UnderConstruction(Lookup(EmptyStore, k), ms[k])
      {
        NewIsUnderConstruction(ms[k]);
      }
    } else {
      RunIsConsistent(es[..|es| - 1], ms, buffer);
      StepKeepsConsistent(Run(es[..|es| - 1], ms, buffer), es[|es| - 1], ms);
    }
  }

  /** The flag that other threads read: after a delivery or a collection it holds if
      and only if no packet is left; after any other arrival it does not hold. */
  lemma FlagAfterStep(s: State, e: Event, ms: Messages)
    requires AllValid(ms) && Arrives(e, ms) && Usable(s)
    ensures var (s', d) := Step(s, e, ms);
            if e.Collection? || d.Some? then s'.store.queueEmpty <==> s'.store.packets == map[]
            else !s'.store.queueEmpty
  {
    hide CopyAll, InRange, Complete, HasOffset, Extend, Message.IsPiece;
    if e.Arrival? { PieceFits(e.f, ms[e.f.key]); }
  }

  /** Whatever arrives, is duplicated, lost to the collector or refused for lack
      of memory: a delivery happens on an arrival and is the original message. */
  lemma DeliveriesAreOriginals(es: seq<Event>, i: nat, ms: Messages, buffer: seq<byte>)
    requires AllValid(ms) && Trace(es, ms) && |buffer| == MAX_FULL_PACKET_SIZE && i < |es|
    requires DeliveredAt(es, i, ms, buffer).Some?
    ensures es[i].Arrival?
    ensures DeliveredAt(es, i, ms, buffer).value == Delivery(es[i].f.key, ms[es[i].f.key].bytes)
  {
    RunIsConsistent(es[..i], ms, buffer);
    StepKeepsConsistent(Run(es[..i], ms, buffer), es[i], ms);
  }

  predicate BringsPiece(e: Event, k: Key, o: nat) {
    e.Arrival? && e.f.key == k && e.f.offset == o
  }

  /** How often piece `o` of the message under `k` arrived. */
  function Arrivals(es: seq<Event>, k: Key, o: nat): nat {
    if es == [] then 0
    else Arrivals(es[..|es| - 1], k, o) + (if BringsPiece(es[|es| - 1], k, o) then 1 else 0)
  }

  ghost predicate DeliversKey(d: Option<Delivery>, k: Key) {
    d.Some? && d.value.key == k
  }

  /** How often a message was delivered for `k`. */
  ghost function Deliveries(es: seq<Event>, k: Key, ms: Messages, buffer: seq<byte>): nat
    requires AllValid(ms) && Trace(es, ms) && |buffer| == MAX_FULL_PACKET_SIZE
  {
    if es == [] then 0
    else
      var before := es[..|es| - 1];
      Deliveries(before, k, ms, buffer)
      + (if DeliversKey(Step(Run(before, ms, buffer), es[|es| - 1], ms).1, k) then 1 else 0)
  }

  lemma StepUsesPieces(s: State, e: Event, ms: Messages, k: Key, o: nat)
    requires AllValid(ms) && Arrives(e, ms) && Consistent(s, ms)
    requires k in ms && ms[k].IsOffset(o)
    ensures var r := Step(s, e, ms);
            (if DeliversKey(r.1, k) then 1 else 0) + (if o in Held(r.0.store, k) then 1 else 0)
            <= (if o in Held(s.store, k) then 1 else 0) + (if BringsPiece(e, k, o) then 1 else 0)
  {
    hide Multiple, Receive, InRange, UnderConstruction, Message.IsPiece, FragmentFits;
    assert o in ms[k].Offsets();
    hide Message.Offsets;
    StepKeepsConsistent(s, e, ms);
    match e
    case Arrival(f, now, mem) =>
      PieceFits(f, ms[f.key]);
      PieceArrives(s.store, f, now, mem, s.buffer, ms[f.key]);
    case Collection(dead) =>
  }

  /** Each delivery for a key uses up an arrival of its own of every piece: the
      number of deliveries, plus the pieces still held, never exceeds the number
      of arrivals of any single piece. */
  lemma {:induction false} EachDeliveryUsesFreshArrivals(es: seq<Event>, ms: Messages, buffer: seq<byte>,
                                                         k: Key, o: nat)
    requires AllValid(ms) && Trace(es, ms) && |buffer| == MAX_FULL_PACKET_SIZE
    requires k in ms && ms[k].IsOffset(o)
    ensures Deliveries(es, k, ms, buffer) + (if o in Held(Run(es, ms, buffer).store, k) then 1 else 0)
            <= Arrivals(es, k, o)
    decreases |es|
  {
    hide Multiple, UnderConstruction, Step;
    if es != [] {
      var before := es[..|es| - 1];
      EachDeliveryUsesFreshArrivals(before, ms, buffer, k, o);
      RunIsConsistent(before, ms, buffer);
      StepUsesPieces(Run(before, ms, buffer), es[|es| - 1], ms, k, o);
    }
  }

  // ------------------------------------------------- exactly once, in time

  ghost function Arrived(es: seq<Event>, k: Key): set<nat> {
    set i | 0 <= i < |es| && es[i].Arrival? && es[i].f.key == k :: es[i].f.offset
  }

  /** Nothing but duplicates before completion disturbs the message under `k`:
      there is memory for its fragments, it is not collected half way, and no
      fragment of it arrives after it was complete. */
  ghost predicate Undisturbed(es: seq<Event>, k: Key, ms: Messages)
    requires AllValid(ms) && k in ms
  {
    forall i :: 0 <= i < |es| ==> UndisturbedAt(es, i, k, ms)
  }

  ghost predicate UndisturbedAt(es: seq<Event>, i: nat, k: Key, ms: Messages)
    requires AllValid(ms) && k in ms && i < |es|
  {
    match es[i]
    case Arrival(f, now, mem) =>
      f.key == k ==> mem == Memory(true, true, true) && Arrived(es[..i], k) != ms[k].Offsets()
    case Collection(dead) => k in dead ==> Arrived(es[..i], k) == {} || Arrived(es[..i], k) == ms[k].Offsets()
  }

  lemma ArrivedStep(es: seq<Event>, k: Key)
    requires es != []
    ensures var e := es[|es| - 1];
            Arrived(es, k) == Arrived(es[..|es| - 1], k) + (if e.Arrival? && e.f.key == k then {e.f.offset} else {})
  {
    var before := es[..|es| - 1];
    forall o | o in Arrived(es, k)
      ensures || o in Arrived(before, k)
              || (es[|es| - 1].Arrival? && es[|es| - 1].f.key == k && o == es[|es| - 1].f.offset)
    {
      var i :| 0 <= i < |es| && es[i].Arrival? && es[i].f.key == k && es[i].f.offset == o;
      if i < |before| { assert before[i] == es[i]; }
    }
    forall o | o in Arrived(before, k)
      ensures o in Arrived(es, k)
    {
      var i :| 0 <= i < |before| && before[i].Arrival? && before[i].f.key == k && before[i].f.offset == o;
      assert es[i] == before[i];
    }
  }

  lemma UndisturbedStep(s: State, e: Event, ms: Messages, k: Key)
    requires AllValid(ms) && Arrives(e, ms) && Consistent(s, ms) && k in ms
    requires e.Arrival? && e.f.key == k ==> e.mem == Memory(true, true, true)
    ensures var r := Step(s, e, ms);
            if e.Arrival? && e.f.key == k then
              var held := Held(s.store, k) + {e.f.offset};
              && Held(r.0.store, k) == (if held == ms[k].Offsets() then {} else held)
              && r.1 == (if held == ms[k].Offsets() then Some(Delivery(k, ms[k].bytes)) else None)
            else
              && !DeliversKey(r.1, k)
              && Held(r.0.store, k) == (if e.Collection? && k in e.dead then {} else Held(s.store, k))
  {
    hide Multiple, Receive, InRange, UnderConstruction, Message.Offsets, Message.IsPiece, FragmentFits;
    StepKeepsConsistent(s, e, ms);
    match e
    case Arrival(f, now, mem) =>
      PieceFits(f, ms[f.key]);
      PieceArrives(s.store, f, now, mem, s.buffer, ms[f.key]);
      if f.offset in Held(s.store, f.key) {
        assert Held(s.store, f.key) + {f.offset} == Held(s.store, f.key);
      }
    case Collection(dead) =>
  }

  lemma UndisturbedPrefix(es: seq<Event>, n: nat, k: Key, ms: Messages)
    requires AllValid(ms) && k in ms && n <= |es| && Undisturbed(es, k, ms)
    ensures Undisturbed(es[..n], k, ms)
  {
    forall i | 0 <= i < n
      ensures UndisturbedAt(es[..n], i, k, ms)
    {
      assert es[..n][..i] == es[..i] && es[..n][i] == es[i] && UndisturbedAt(es, i, k, ms);
    }
  }

  /** An undisturbed message holds exactly what arrived, until it is complete. */
  lemma {:induction false} UndisturbedHolds(es: seq<Event>, ms: Messages, buffer: seq<byte>, k: Key)
    requires AllValid(ms) && Trace(es, ms) && |buffer| == MAX_FULL_PACKET_SIZE
    requires k in ms && Undisturbed(es, k, ms)
    ensures Held(Run(es, ms, buffer).store, k) == if Arrived(es, k) == ms[k].Offsets() then {} else Arrived(es, k)
    decreases |es|
  {
    hide Multiple, UnderConstruction, Step, Undisturbed, Arrived, Consistent;
    if es == [] {
      NothingArrived(k, ms);
    } else {
      var before, e := es[..|es| - 1], es[|es| - 1];
      UndisturbedPrefix(es, |es| - 1, k, ms);
      UndisturbedHolds(before, ms, buffer, k);
      RunIsConsistent(before, ms, buffer);
      UndisturbedLast(es, k, ms);
      ArrivedStep(es, k);
      UndisturbedStep(Run(before, ms, buffer), e, ms, k);
    }
  }

  lemma NothingArrived(k: Key, ms: Messages)
    requires AllValid(ms) && k in ms
    ensures Arrived([], k) == {} != ms[k].Offsets()
    ensures Held(EmptyStore, k) == {}
  {
    assert ms[k].IsOffset(0);
    assert 0 in ms[k].Offsets();
  }

  lemma UndisturbedLast(es: seq<Event>, k: Key, ms: Messages)
    requires AllValid(ms) && k in ms && es != [] && Undisturbed(es, k, ms)
    ensures UndisturbedAt(es, |es| - 1, k, ms)
  {
  }

  ghost predicate CompletesAt(es: seq<Event>, i: nat, k: Key, ms: Messages)
    requires AllValid(ms) && k in ms && i < |es|
  {
    Arrived(es[..i], k) != ms[k].Offsets() && Arrived(es[..i + 1], k) == ms[k].Offsets()
  }

  /** An undisturbed message is delivered, byte for byte, at the very step at
      which the last of its pieces arrives, and at no other step. */
  lemma DeliveredWhenComplete(es: seq<Event>, i: nat, ms: Messages, buffer: seq<byte>, k: Key)
    requires AllValid(ms) && Trace(es, ms) && |buffer| == MAX_FULL_PACKET_SIZE
    requires k in ms && Undisturbed(es, k, ms) && i < |es|
    ensures DeliversKey(DeliveredAt(es, i, ms, buffer), k) <==> CompletesAt(es, i, k, ms)
    ensures CompletesAt(es, i, k, ms) ==> DeliveredAt(es, i, ms, buffer) == Some(Delivery(k, ms[k].bytes))
  {
    hide Multiple, UnderConstruction, Step, Undisturbed, Arrived, Consistent;
    var upto := es[..i + 1];
    assert upto[..i] == es[..i] && upto[i] == es[i];
    UndisturbedPrefix(es, i + 1, k, ms);
    UndisturbedPrefix(es, i, k, ms);
    UndisturbedHolds(es[..i], ms, buffer, k);
    RunIsConsistent(es[..i], ms, buffer);
    UndisturbedLast(upto, k, ms);
    ArrivedStep(upto, k);
    UndisturbedStep(Run(es[..i], ms, buffer), es[i], ms, k);
  }

  /** Over a whole run, an undisturbed message is delivered exactly once when all
      of its pieces arrive, and not at all otherwise. */
  lemma {:induction false} DeliveredExactlyOnce(es: seq<Event>, ms: Messages, buffer: seq<byte>, k: Key)
    requires AllValid(ms) && Trace(es, ms) && |buffer| == MAX_FULL_PACKET_SIZE
    requires k in ms && Undisturbed(es, k, ms)
    ensures Deliveries(es, k, ms, buffer) == if Arrived(es, k) == ms[k].Offsets() then 1 else 0
    decreases |es|
  {
    hide Multiple, UnderConstruction, Step, Undisturbed, Arrived, Consistent;
    if es == [] {
      NothingArrived(k, ms);
    } else {
      var n := |es| - 1;
      UndisturbedPrefix(es, n, k, ms);
      DeliveredExactlyOnce(es[..n], ms, buffer, k);
      DeliveredWhenComplete(es, n, ms, buffer, k);
      assert es[..n + 1] == es;
      UndisturbedLast(es, k, ms);
      ArrivedStep(es, k);
    }
  }
}
