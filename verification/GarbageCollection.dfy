/** How long an incomplete packet can stay: timed runs of arrivals and calls of
    the collector on a clock that never goes back. */
module GarbageCollection {
  import opened Common
  import opened Fragments
  import opened Reassembly

  /** Store, when each packet holder was filed, time of the last collection, start
      of the last call of the collector, and the present time, in milliseconds. */
  datatype Timed = Timed(store: Store, filed: map<Key, nat>, lastGc: nat, lastCall: nat, now: nat) {
    /** When a packet was last heard of: when its last fragment was added or, as long
        as it has none, when its holder was filed. */
    function Heard(k: Key): nat
      requires k in store.packets && k in filed
    {
      if store.packets[k].frags == [] then filed[k] else store.packets[k].lastRx
    }
  }

  datatype Happening =
    | Rx(f: Fragment, at: nat, mem: Memory, buffer: seq<byte>)
    | GcCall(clock: seq<nat>, dead: set<Key>, tested: map<Key, nat>)

  const Start := Timed(EmptyStore, map[], 0, 0, 0)

  /** The times of filing after a step at time `now` that leads to these packets. */
  function Filing(filed: map<Key, nat>, packets: map<Key, Packet>, now: nat): map<Key, nat> {
    map k | k in packets :: if k in filed then filed[k] else now
  }

  ghost predicate TimeGoesOn(clock: seq<nat>, now: nat) {
    && |clock| >= 2
    && now <= clock[0] <= clock[1]
    && forall i :: 1 <= i < |clock| ==> clock[1] <= clock[i] <= clock[|clock| - 1]
  }

  ghost predicate Next(s: Timed, h: Happening, s': Timed, maxDuration: nat) {
    match h
    case Rx(f, at, mem, buffer) =>
      && InRange(s.store) && FragmentFits(f) && |buffer| == MAX_FULL_PACKET_SIZE
      && s.now <= at
      && var store := Receive(s.store, f, at, mem, buffer).store;
         s' == s.(store := store, filed := Filing(s.filed, store.packets, at), now := at)
    case GcCall(clock, dead, tested) =>
      && Readings(s.store, clock)
      && TimeGoesOn(clock, s.now)
      && if CollectionDue(clock[0], s.lastGc, maxDuration) then
           && DeadAt(s.store, dead, maxDuration, clock, tested)
           && var store := Collect(s.store, dead);
              s' == Timed(store, Filing(s.filed, store.packets, s.now), clock[1], clock[0], clock[|clock| - 1])
         else
           s' == s.(lastCall := clock[0], now := clock[|clock| - 1])
  }

  /** States of a run from the start, each reached from the one before. */
  ghost predicate Reaches(states: seq<Timed>, hs: seq<Happening>, maxDuration: nat) {
    && |states| == |hs| + 1
    && states[0] == Start
    && forall i :: 0 <= i < |hs| ==> Next(states[i], hs[i], states[i + 1], maxDuration)
  }

  /** The age test is right for hosts that have been up for less than 2^32 seconds. */
  const UPTIME_LIMIT_MS: nat := UINT32_RANGE * 1000

  lemma ExpiredMeansIdle(now: nat, lastRx: nat, maxDuration: nat)
    requires lastRx <= now < UPTIME_LIMIT_MS
    ensures Expired(now, lastRx, maxDuration) <==> now - lastRx >= (maxDuration + 1) * 1000
  {
    assert Elapsed(now, lastRx) == now - lastRx;
    var seconds := (now - lastRx) / 1000;
    assert 0 <= seconds < UINT32_RANGE;
    assert seconds % UINT32_RANGE == seconds;
  }

  /** Every packet that has received something was heard of less than maxDuration + 1
      seconds before the last collection; that collection was no more than the
      minimum period before the last call. */
  ghost predicate Fresh(s: Timed, maxDuration: nat) {
    && s.lastCall <= s.now && s.lastGc <= s.now
    && s.lastCall <= s.lastGc + MIN_GARBAGE_COLLECT_PERIOD_S * 1000
    && s.filed.Keys == s.store.packets.Keys
    && forall k :: k in s.store.packets ==>
         PacketFresh(s.store.packets[k], s.filed[k], s, maxDuration)
  }

  ghost predicate PacketFresh(p: Packet, filed: nat, s: Timed, maxDuration: nat) {
    && p.lastRx <= s.now && filed <= s.now
    && if p.frags == [] then
         p.lastRx == 0 && (s.lastGc <= filed || s.lastGc < (maxDuration + 1) * 1000)
       else
         s.lastGc < p.lastRx + (maxDuration + 1) * 1000
  }

  /** What an arrival can leave under a key: what was there, a packet that has just
      gained a fragment, or a new empty holder. */
  lemma ReceivedPackets(s: Store, f: Fragment, at: nat, mem: Memory, buffer: seq<byte>, k: Key)
    requires InRange(s) && FragmentFits(f) && |buffer| == MAX_FULL_PACKET_SIZE
    requires k in Receive(s, f, at, mem, buffer).store.packets
    ensures var p := Receive(s, f, at, mem, buffer).store.packets[k];
            || (k in s.packets && p == s.packets[k])
            || (p.frags != [] && p.lastRx == at)
            || (k !in s.packets && p == NewPacket)
  {
    hide CopyAll, Complete, InRange, PacketFits, HasOffset;
    AddInRange(s, f, at, mem);
  }

  lemma RxKeepsFresh(s: Timed, h: Happening, s': Timed, maxDuration: nat)
    requires Fresh(s, maxDuration) && h.Rx? && Next(s, h, s', maxDuration)
    ensures Fresh(s', maxDuration)
  {
    hide Receive, InRange, FragmentFits;
    forall k | k in s'.store.packets
      ensures PacketFresh(s'.store.packets[k], s'.filed[k], s', maxDuration)
    {
      ReceivedPackets(s.store, h.f, h.at, h.mem, h.buffer, k);
      if k in s.store.packets {
        assert PacketFresh(s.store.packets[k], s.filed[k], s, maxDuration);
      }
    }
  }

  /** A collection that was due tests a packet with one of its readings. */
  lemma TestedAt(s: Timed, h: Happening, s': Timed, maxDuration: nat, k: Key) returns (reading: nat)
    requires h.GcCall? && Next(s, h, s', maxDuration) && |h.clock| > 0
    requires CollectionDue(h.clock[0], s.lastGc, maxDuration)
    requires k in s.store.packets && s.store.packets[k].lastRx <= s.now && s'.now < UPTIME_LIMIT_MS
    ensures s.now <= s'.lastGc <= reading <= s'.now && reading in h.clock
    ensures k !in s'.store.packets <==> reading - s.store.packets[k].lastRx >= (maxDuration + 1) * 1000
  {
    hide Expired, CollectionDue, Receive, InRange, Filing;
    reading := h.clock[h.tested[k]];
    ExpiredMeansIdle(reading, s.store.packets[k].lastRx, maxDuration);
  }

  /** A call changes times and, when a collection is due, what is left. */
  lemma CallLeaves(s: Timed, h: Happening, s': Timed, maxDuration: nat)
    requires h.GcCall? && Next(s, h, s', maxDuration)
    ensures |h.clock| > 0 && s.now <= s'.lastCall <= s'.now
    ensures forall k :: k in s'.store.packets ==> k in s.store.packets && s'.store.packets[k] == s.store.packets[k]
    ensures if CollectionDue(h.clock[0], s.lastGc, maxDuration) then
              && s'.filed == Filing(s.filed, s'.store.packets, s.now)
              && s'.lastCall <= s'.lastGc <= s'.now
            else
              s'.store == s.store && s'.filed == s.filed && s'.lastGc == s.lastGc
    ensures s'.lastCall == h.clock[0]
  {
    hide Expired, CollectionDue, Receive, InRange, Filing, DeadAt;
  }

  lemma NotDue(now: nat, lastGc: nat, maxDuration: nat)
    requires lastGc <= now && maxDuration > 0 && now < UPTIME_LIMIT_MS && !CollectionDue(now, lastGc, maxDuration)
    ensures now <= lastGc + MIN_GARBAGE_COLLECT_PERIOD_S * 1000
  {
    assert Elapsed(now, lastGc) == now - lastGc;
  }

  lemma GcKeepsFresh(s: Timed, h: Happening, s': Timed, maxDuration: nat)
    requires Fresh(s, maxDuration) && h.GcCall? && Next(s, h, s', maxDuration)
    requires maxDuration > 0 && s'.now < UPTIME_LIMIT_MS
    ensures Fresh(s', maxDuration)
  {
    hide Next, CollectionDue;
    CallLeaves(s, h, s', maxDuration);
    var due := CollectionDue(h.clock[0], s.lastGc, maxDuration);
    if !due { NotDue(h.clock[0], s.lastGc, maxDuration); }
    forall k | k in s'.store.packets
      ensures PacketFresh(s'.store.packets[k], s'.filed[k], s', maxDuration)
    {
      assert PacketFresh(s.store.packets[k], s.filed[k], s, maxDuration);
      if due {
        var reading := TestedAt(s, h, s', maxDuration, k);
      }
    }
  }

  lemma {:induction false} RunStaysFresh(states: seq<Timed>, hs: seq<Happening>, maxDuration: nat, i: nat)
    requires maxDuration > 0 && Reaches(states, hs, maxDuration) && i <= |hs|
    requires forall j :: 0 <= j <= |hs| ==> states[j].now < UPTIME_LIMIT_MS
    ensures Fresh(states[i], maxDuration)
  {
    hide Next, Fresh;
    if i == 0 {
      StartIsFresh(maxDuration);
    } else {
      RunStaysFresh(states, hs, maxDuration, i - 1);
      assert Next(states[i - 1], hs[i - 1], states[i - 1 + 1], maxDuration);
      if hs[i - 1].Rx? {
        RxKeepsFresh(states[i - 1], hs[i - 1], states[i], maxDuration);
      } else {
        GcKeepsFresh(states[i - 1], hs[i - 1], states[i], maxDuration);
      }
    }
  }

  lemma StartIsFresh(maxDuration: nat)
    ensures Fresh(Start, maxDuration)
  {
  }

  /** With the limit 0 the collector is switched off: on every run its calls remove
      nothing and do not count as runs. */
  lemma SwitchedOff(states: seq<Timed>, hs: seq<Happening>, i: nat)
    requires Reaches(states, hs, 0) && i < |hs| && hs[i].GcCall?
    ensures states[i + 1].store == states[i].store && states[i + 1].lastGc == states[i].lastGc
  {
    assert Next(states[i], hs[i], states[i + 1], 0);
  }

  /** With any other limit a call counts as a run exactly when its first reading of
      the clock is more than 5 s after the last run; else it removes nothing. */
  lemma RunsEveryFiveSeconds(states: seq<Timed>, hs: seq<Happening>, maxDuration: nat, i: nat)
    requires maxDuration > 0 && Reaches(states, hs, maxDuration) && i < |hs| && hs[i].GcCall?
    requires forall j :: 0 <= j <= |hs| ==> states[j].now < UPTIME_LIMIT_MS
    ensures |hs[i].clock| >= 2
    ensures if hs[i].clock[0] > states[i].lastGc + 5000 then
              states[i + 1].lastGc == hs[i].clock[1] > states[i].lastGc
            else
              states[i + 1].lastGc == states[i].lastGc && states[i + 1].store == states[i].store
  {
    hide Fresh, DeadAt, Filing;
    RunStaysFresh(states, hs, maxDuration, i);
    assert Next(states[i], hs[i], states[i + 1], maxDuration);
    LastRunIsPast(states[i], maxDuration);
    var now, last := hs[i].clock[0], states[i].lastGc;
    ReadingsRise(states[i], hs[i], states[i + 1], maxDuration);
    assert Elapsed(now, last) == now - last;
  }

  lemma LastRunIsPast(s: Timed, maxDuration: nat)
    requires Fresh(s, maxDuration)
    ensures s.lastGc <= s.now
  {}

  lemma ReadingsRise(s: Timed, h: Happening, s': Timed, maxDuration: nat)
    requires h.GcCall? && Next(s, h, s', maxDuration)
    ensures |h.clock| >= 2 && s.now <= h.clock[0] <= h.clock[1] <= s'.now
  {
    hide DeadAt, CollectionDue, Filing;
  }

  /** When the collector is called at least every `period` milliseconds, no packet
      stays longer than the maximum duration, rounded up by a second, plus the
      minimum time between two collections, plus that period. */
  lemma NoPacketStaysIdle(states: seq<Timed>, hs: seq<Happening>, maxDuration: nat, period: nat, i: nat, k: Key)
    requires maxDuration > 0 && Reaches(states, hs, maxDuration) && i <= |hs|
    requires forall j :: 0 <= j <= |hs| ==> states[j].now < UPTIME_LIMIT_MS
    requires states[i].now <= states[i].lastCall + period
    requires k in states[i].store.packets
    ensures k in states[i].filed
    ensures states[i].now - states[i].Heard(k)
            <= (maxDuration + 1) * 1000 + MIN_GARBAGE_COLLECT_PERIOD_S * 1000 + period
  {
    RunStaysFresh(states, hs, maxDuration, i);
  }

  /** A collection that runs removes exactly the packets idle for maxDuration + 1
      seconds at the time it tests them. */
  lemma RemovedWhenIdle(s: Timed, h: Happening, s': Timed, maxDuration: nat, k: Key) returns (reading: nat)
    requires Fresh(s, maxDuration) && h.GcCall? && Next(s, h, s', maxDuration)
    requires s'.now < UPTIME_LIMIT_MS && k in s.store.packets
    ensures s.now <= reading <= s'.now
    ensures k !in s'.store.packets ==> reading in h.clock
    ensures s'.lastGc != s.lastGc || k !in s'.store.packets ==>
              (k !in s'.store.packets <==> reading - s.store.packets[k].lastRx >= (maxDuration + 1) * 1000)
  {
    hide Next, CollectionDue;
    CallLeaves(s, h, s', maxDuration);
    reading := s.now;
    if CollectionDue(h.clock[0], s.lastGc, maxDuration) {
      assert PacketFresh(s.store.packets[k], s.filed[k], s, maxDuration);
      reading := TestedAt(s, h, s', maxDuration, k);
    }
  }

  /** No call removes a packet that was heard of within the last maxDuration + 1
      seconds before the clock reading it is tested with. */
  lemma NoActivePacketRemoved(states: seq<Timed>, hs: seq<Happening>, maxDuration: nat, i: nat, k: Key)
    returns (reading: nat)
    requires maxDuration > 0 && Reaches(states, hs, maxDuration) && i < |hs| && hs[i].GcCall?
    requires forall j :: 0 <= j <= |hs| ==> states[j].now < UPTIME_LIMIT_MS
    requires k in states[i].store.packets && k !in states[i + 1].store.packets
    ensures states[i].now <= reading <= states[i + 1].now
    ensures reading in hs[i].clock
    ensures reading - states[i].store.packets[k].lastRx >= (maxDuration + 1) * 1000
  {
    RunStaysFresh(states, hs, maxDuration, i);
    assert Next(states[i], hs[i], states[i + 1], maxDuration);
    reading := RemovedWhenIdle(states[i], hs[i], states[i + 1], maxDuration, k);
  }

  /** A holder left without fragments by a failed allocation goes with the next
      collection, once the host has been up for maxDuration + 1 seconds. */
  lemma EmptyHolderGoes(states: seq<Timed>, hs: seq<Happening>, maxDuration: nat, i: nat, k: Key)
    requires maxDuration > 0 && Reaches(states, hs, maxDuration) && i < |hs| && hs[i].GcCall?
    requires forall j :: 0 <= j <= |hs| ==> states[j].now < UPTIME_LIMIT_MS
    requires (maxDuration + 1) * 1000 <= states[i].now
    requires k in states[i].store.packets && states[i].store.packets[k].frags == []
    requires states[i + 1].lastGc != states[i].lastGc
    ensures k !in states[i + 1].store.packets
  {
    RunStaysFresh(states, hs, maxDuration, i);
    assert Next(states[i], hs[i], states[i + 1], maxDuration);
    var reading := RemovedWhenIdle(states[i], hs[i], states[i + 1], maxDuration, k);
  }
}
