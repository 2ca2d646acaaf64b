/** The specification of the reassembly queue: values and pure functions.
    The class in ReassemblyQueue computes exactly these. */
module Reassembly {
  import opened Common
  import opened Tiling
  import opened Fragments

  const MIN_GARBAGE_COLLECT_PERIOD_S: nat := 5
  const UINT32_RANGE: nat := 0x1_0000_0000

  datatype Packet = Packet(frags: seq<Stored>, fullSize: nat, isFull: bool, lastRx: nat)

  const NewPacket := Packet([], 0, false, 0)

  datatype Store = Store(packets: map<Key, Packet>, queueEmpty: bool)

  const EmptyStore := Store(map[], true)

  /** Which of the three allocations of one call succeed: the packet holder, the
      fragment header and the fragment payload. */
  datatype Memory = Memory(packet: bool, header: bool, data: bool)

  datatype Added = Added(store: Store, ok: bool, fullSize: nat)

  function Lookup(s: Store, k: Key): Packet {
    if k in s.packets then s.packets[k] else NewPacket
  }

  predicate HasOffset(fs: seq<Stored>, o: nat) {
    exists i :: 0 <= i < |fs| && fs[i].offset == o
  }

  predicate Complete(p: Packet) {
    p.isFull || (p.fullSize != 0 && SizeSum(Intervals(p.frags)) == p.fullSize)
  }

  function Extend(p: Packet, f: Fragment, now: nat): Packet {
    Packet([Stored(f.offset, f.bytes)] + p.frags,
           if f.last then f.offset + |f.bytes| else p.fullSize,
           p.isFull,
           now)
  }

  function MarkFull(p: Packet): Packet {
    p.(isFull := Complete(p))
  }

  function Add(s: Store, f: Fragment, now: nat, mem: Memory): Added {
    if f.key !in s.packets && !mem.packet then
      Added(s.(queueEmpty := false), false, 0)
    else
      var p := Lookup(s, f.key);
      if HasOffset(p.frags, f.offset) || !mem.header || !mem.data then
        Added(Store(s.packets[f.key := p], false), false, 0)
      else
        var p' := MarkFull(Extend(p, f, now));
        Added(Store(s.packets[f.key := p'], false), true, if p'.isFull then p'.fullSize else 0)
  }

  /** A fragment is added when it is not a duplicate and there is memory.  When only
      the packet can be created, an empty one is filed all the same. */
  lemma AddMeans(s: Store, f: Fragment, now: nat, mem: Memory)
    ensures var a := Add(s, f, now, mem);
            && a.store.packets.Keys == s.packets.Keys + (if mem.packet then {f.key} else {})
            && (a.ok <==>
                  && (f.key in s.packets || mem.packet) && mem.header && mem.data
                  && !HasOffset(Lookup(s, f.key).frags, f.offset))
            && (forall k :: k in s.packets && !(a.ok && k == f.key) ==> a.store.packets[k] == s.packets[k])
            && (f.key !in s.packets && mem.packet && !a.ok ==> a.store.packets[f.key] == NewPacket)
            && !a.store.queueEmpty
  {}

  // ------------------------------------------------------------ reception

  ghost predicate FragmentFits(f: Fragment) {
    f.offset + |f.bytes| <= MAX_FULL_PACKET_SIZE
  }

  ghost predicate PacketFits(p: Packet) {
    AllFit(p.frags, MAX_FULL_PACKET_SIZE) && p.fullSize <= MAX_FULL_PACKET_SIZE
  }

  /** No fragment in the store reaches beyond the largest packet. */
  ghost predicate InRange(s: Store) {
    forall k :: k in s.packets ==> PacketFits(s.packets[k])
  }

  lemma AddInRange(s: Store, f: Fragment, now: nat, mem: Memory)
    requires InRange(s) && FragmentFits(f)
    ensures InRange(Add(s, f, now, mem).store)
  {
    var p := Lookup(s, f.key);
    assert PacketFits(p);
    assert PacketFits(MarkFull(Extend(p, f, now)));
  }

  function Remove(s: Store, k: Key): Store {
    var rest := s.packets - {k};
    Store(rest, |rest| == 0)
  }

  datatype Received = Received(store: Store, delivered: Option<seq<byte>>, buffer: seq<byte>)

  /** One fragment indication: add it and, when it completes its packet, take
      the whole message out through the static buffer. */
  function Receive(s: Store, f: Fragment, now: nat, mem: Memory, buffer: seq<byte>): (r: Received)
    requires InRange(s) && FragmentFits(f) && |buffer| == MAX_FULL_PACKET_SIZE
    ensures InRange(r.store) && |r.buffer| == MAX_FULL_PACKET_SIZE
  {
    AddInRange(s, f, now, mem);
    var a := Add(s, f, now, mem);
    if a.ok && a.fullSize != 0 then
      var p := a.store.packets[f.key];
      assert PacketFits(p);
      var buffer' := CopyAll(buffer, p.frags);
      Received(Remove(a.store, f.key), Some(buffer'[..p.fullSize]), buffer')
    else
      Received(a.store, None, buffer)
  }

  // --------------------------------------------------- garbage collection

  const UINT64_RANGE: nat := 0x1_0000_0000_0000_0000

  /** A difference of two 64-bit millisecond times. */
  function Elapsed(now: nat, since: nat): nat {
    (now - since) % UINT64_RANGE
  }

  /** The collector's age test; the age in seconds is kept in 32 bits. */
  predicate Expired(now: nat, lastRx: nat, maxDuration: nat) {
    (Elapsed(now, lastRx) / 1000) % UINT32_RANGE > maxDuration
  }

  predicate CollectionDue(now: nat, lastGc: nat, maxDuration: nat) {
    maxDuration > 0 && Elapsed(now, lastGc) > MIN_GARBAGE_COLLECT_PERIOD_S * 1000
  }

  /** Never with the limit 0, else more than 5 s after the last collection. */
  lemma DueMeans(now: nat, lastGc: nat, maxDuration: nat)
    ensures CollectionDue(now, lastGc, maxDuration) <==>
            maxDuration > 0 && (now - lastGc) % 0x1_0000_0000_0000_0000 > 5000
  {}

  function Collect(s: Store, dead: set<Key>): Store {
    var rest := s.packets - dead;
    Store(rest, |rest| == 0)
  }

  /** The successive readings one collection takes of the monotonic clock, in
      milliseconds: two, and then one for each packet. */
  ghost predicate Readings(s: Store, clock: seq<nat>) {
    |clock| >= 2 + |s.packets|
  }

  /** `dead` are exactly the packets found expired; packet `k` is tested with
      the clock reading number `at[k]` of this collection. */
  ghost predicate DeadAt(s: Store, dead: set<Key>, maxDuration: nat, clock: seq<nat>, at: map<Key, nat>)
    requires Readings(s, clock)
  {
    && dead <= s.packets.Keys == at.Keys
    && forall k :: k in at ==>
         && 2 <= at[k] < 2 + |s.packets|
         && (k in dead <==> Expired(clock[at[k]], s.packets[k].lastRx, maxDuration))
  }

  // ------------------------------------------------------ memory accounting

  /** Sizes of the two C structs on a 64-bit host. */
  const PACKET_STRUCT_SIZE: nat := 96
  const FRAGMENT_STRUCT_SIZE: nat := 32

  function FragmentsSize(fs: seq<Stored>): nat {
    if fs == [] then 0 else FRAGMENT_STRUCT_SIZE + |fs[0].bytes| + FragmentsSize(fs[1..])
  }

  function PacketSize(p: Packet): nat {
    PACKET_STRUCT_SIZE + FragmentsSize(p.frags)
  }

  ghost function Pick(m: map<Key, Packet>): (k: Key)
    requires m != map[]
    ensures k in m
  {
    var k :| k in m; k
  }

  /** Bytes of packet and fragment memory reachable from the table. */
  ghost function Reachable(m: map<Key, Packet>): nat {
    if m == map[] then 0 else PacketSize(m[Pick(m)]) + Reachable(m - {Pick(m)})
  }

  lemma {:induction false} ReachableSplit(m: map<Key, Packet>, k: Key)
    requires k in m
    ensures Reachable(m) == PacketSize(m[k]) + Reachable(m - {k})
    decreases |m|
  {
    var c := Pick(m);
    if c != k {
      ReachableSplit(m - {c}, k);
      ReachableSplit(m - {k}, c);
      assert m - {c} - {k} == m - {k} - {c};
    }
  }

  /** Replacing or adding one packet changes the reachable bytes by that packet only. */
  lemma ReachableUpdate(m: map<Key, Packet>, k: Key, p: Packet)
    ensures Reachable(m[k := p]) == PacketSize(p) + Reachable(m - {k})
  {
    ReachableSplit(m[k := p], k);
    assert m[k := p] - {k} == m - {k};
  }
}
