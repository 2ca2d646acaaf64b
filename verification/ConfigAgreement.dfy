/** Exactly when the gateway's copy still agrees with the node after a request,
    whatever the node refuses, whatever is lost and whichever reads fail. */
module ConfigAgreement {
  import opened Common
  import opened AppResults
  import opened SinkNode
  import opened SetConfig
  import opened ConfigProperties

  /** The log has a write of this kind of key that was made ... */
  ghost predicate KeyWritten(log: seq<Entry>, kind: Field) {
    exists i :: 0 <= i < |log| && IsKeyWrite(log[i], kind)
  }

  /** ... and after one an answered read of the flag for it. */
  ghost predicate KeySeen(log: seq<Entry>, kind: Field) {
    exists i, j :: 0 <= i < j < |log| && IsKeyWrite(log[i], kind) && log[j] == Got(kind, true)
  }

  predicate IsKeyWrite(e: Entry, kind: Field) {
    && e.Wrote? && e.outcome.Done()
    && match kind
       case CIPHER_SET => e.write.CipherKey?
       case AUTHENTICATION_SET => e.write.AuthenticationKey?
       case _ => false
  }

  lemma KeyStep(log: seq<Entry>, kind: Field, e: Entry)
    ensures KeyWritten(log + [e], kind) <==> KeyWritten(log, kind) || IsKeyWrite(e, kind)
    ensures KeySeen(log + [e], kind) <==> KeySeen(log, kind) || (KeyWritten(log, kind) && e == Got(kind, true))
  {
    hide IsKeyWrite;
    var longer := log + [e];
    if KeyWritten(log, kind) {
      var i :| 0 <= i < |log| && IsKeyWrite(log[i], kind);
      assert longer[i] == log[i] && longer[|log|] == e;
    }
    if IsKeyWrite(e, kind) {
      assert longer[|log|] == e;
    }
    if KeySeen(log, kind) {
      var i, j :| 0 <= i < j < |log| && IsKeyWrite(log[i], kind) && log[j] == Got(kind, true);
      assert longer[i] == log[i] && longer[j] == log[j];
    }
  }

  /** The entry is a stop or a start that was made. */
  predicate Switches(e: Entry) {
    (e.Stop? && e.running && e.outcome.Done()) || (e.Start? && !e.running && e.outcome.Done())
  }

  /** What an entry makes of a cached state that was wrong or right: a switch turns
      one into the other, a status that is read makes it right; after a stop or a
      start whose wait was answered the handler believes that it was made. */
  function AstrayAfter(before: bool, e: Entry): bool {
    if Switches(e) then !before
    else if e == Got(STATUS, true) then false
    else if e.Polled? && e.answered then !e.right
    else before
  }

  predicate Astray(log: seq<Entry>) {
    if log == [] then false else AstrayAfter(Astray(log[..|log| - 1]), log[|log| - 1])
  }

  lemma AstrayStep(log: seq<Entry>, e: Entry)
    ensures Astray(log + [e]) == AstrayAfter(Astray(log), e)
  {
    assert (log + [e])[..|log|] == log;
  }

  /** The write that is read back as this field. */
  predicate Writes(write: Write, f: Field) {
    match write
    case Role(_) => f == ROLE
    case NodeAddress(_) => f == NODE_ADDRESS
    case NetworkAddress(_) => f == NETWORK_ADDRESS
    case NetworkChannel(_) => f == NETWORK_CHANNEL
    case AccessCycleRange(_, _) => f == AC_RANGE
    case _ => false
  }

  predicate IsAttribute(f: Field) {
    f == ROLE || f == NODE_ADDRESS || f == NETWORK_ADDRESS || f == NETWORK_CHANNEL || f == AC_RANGE
  }

  /** The last write of this attribute that was made was not heard of, and the
      attribute was not read since. */
  function OverlookedAfter(before: bool, e: Entry, f: Field): bool {
    if e.Wrote? && Writes(e.write, f) && e.outcome.Done() then e.outcome.Unheard?
    else if e == Got(f, true) then false
    else before
  }

  predicate Overlooked(log: seq<Entry>, f: Field) {
    if log == [] then false else OverlookedAfter(Overlooked(log[..|log| - 1], f), log[|log| - 1], f)
  }

  lemma OverlookedStep(log: seq<Entry>, e: Entry, f: Field)
    ensures Overlooked(log + [e], f) == OverlookedAfter(Overlooked(log, f), e, f)
  {
    assert (log + [e])[..|log|] == log;
  }

  // ---------------------------------------------------------- the invariants

  function HasKey(s: Settings, kind: Field): bool {
    if kind == CIPHER_SET then s.cipherKey.Some? else s.authenticationKey.Some?
  }

  function KeyFlag(c: Cache, kind: Field): bool {
    if kind == CIPHER_SET then c.cipherKeySet else c.authenticationKeySet
  }

  predicate IsKeyField(kind: Field) {
    kind == CIPHER_SET || kind == AUTHENTICATION_SET
  }

  /** The node has a key if it had one or was given one; the cache knows of it if
      it had one or the flag was read after that. */
  ghost predicate Tracks(w: World, kind: Field, had: bool) {
    && HasKey(w.node.settings, kind) == (had || KeyWritten(w.node.log, kind))
    && KeyFlag(w.cache, kind) == (had || KeySeen(w.node.log, kind))
  }

  /** The cached state is wrong exactly when the log went astray. */
  ghost predicate Steers(w: World) {
    (w.cache.stopped == !w.node.running) != Astray(w.node.log)
  }

  function Value(a: Attributes, f: Field): (nat, nat) {
    match f
    case ROLE => (a.role, 0)
    case NODE_ADDRESS => (a.nodeAddress, 0)
    case NETWORK_ADDRESS => (a.networkAddress, 0)
    case NETWORK_CHANNEL => (a.networkChannel, 0)
    case AC_RANGE => (a.acRangeMin, a.acRangeMax)
    case _ => (0, 0)
  }

  /** The cached attribute is wrong exactly when a write of it was overlooked. */
  ghost predicate Knows(w: World, f: Field) {
    (Value(w.cache.attributes, f) == Value(w.node.settings.attributes, f)) != Overlooked(w.node.log, f)
  }

  lemma GetTracks(w: World, f: Field, kind: Field, had: bool)
    requires Tracks(w, kind, had) && IsKeyField(kind)
    ensures Tracks(Get(w, f), kind, had)
  {
    hide KeyWritten, KeySeen;
    KeyStep(w.node.log, kind, Got(f, w.node.Readable()));
    if KeySeen(w.node.log, kind) { SeenIsWritten(w.node.log, kind); }
  }

  lemma SeenIsWritten(log: seq<Entry>, kind: Field)
    requires KeySeen(log, kind)
    ensures KeyWritten(log, kind)
  {
    hide IsKeyWrite;
  }

  /** An entry that neither writes this key nor reads its flag. */
  predicate Beside(e: Entry, kind: Field) {
    !IsKeyWrite(e, kind) && e != Got(kind, true)
  }

  lemma BesideTracks(w: World, w': World, e: Entry, kind: Field, had: bool)
    requires Tracks(w, kind, had) && w'.node.log == w.node.log + [e] && Beside(e, kind)
    requires HasKey(w'.node.settings, kind) == HasKey(w.node.settings, kind)
    requires KeyFlag(w'.cache, kind) == KeyFlag(w.cache, kind)
    ensures Tracks(w', kind, had)
  {
    hide KeyWritten, KeySeen, HasKey, KeyFlag;
    KeyStep(w.node.log, kind, e);
  }

  lemma GetSteers(w: World, f: Field)
    requires Steers(w)
    ensures Steers(Get(w, f))
  {
    hide Astray;
    AstrayStep(w.node.log, Got(f, w.node.Readable()));
  }

  lemma {:induction false} GetAllTracks(w: World, fs: seq<Field>, kind: Field, had: bool)
    requires Tracks(w, kind, had) && IsKeyField(kind)
    ensures Tracks(GetAll(w, fs), kind, had)
    decreases |fs|
  {
    hide Get, Tracks;
    if fs != [] {
      GetTracks(w, fs[0], kind, had);
      GetAllTracks(Get(w, fs[0]), fs[1..], kind, had);
    }
  }

  lemma {:induction false} GetAllSteers(w: World, fs: seq<Field>)
    requires Steers(w)
    ensures Steers(GetAll(w, fs))
    decreases |fs|
  {
    hide Get, Steers;
    if fs != [] {
      GetSteers(w, fs[0]);
      GetAllSteers(Get(w, fs[0]), fs[1..]);
    }
  }

  lemma SetTracks(w: World, write: Write, kind: Field, had: bool)
    requires Tracks(w, kind, had) && IsKeyField(kind)
    ensures Tracks(w.(node := w.node.Set(write)), kind, had)
  {
    hide KeyWritten, KeySeen, Written, WrittenAttributes;
    WrittenParts(w.node.settings, write);
    KeyStep(w.node.log, kind, Wrote(write, w.node.running, w.node.Next()));
  }

  lemma SetSteers(w: World, write: Write)
    requires Steers(w)
    ensures Steers(w.(node := w.node.Set(write)))
  {
    hide Astray;
    AstrayStep(w.node.log, Wrote(write, w.node.running, w.node.Next()));
  }

  /** What matters here of two worlds is the same. */
  ghost predicate SameFlags(w: World, w': World) {
    && w'.node == w.node
    && w'.cache == w.cache.(attributes := w'.cache.attributes)
  }

  lemma SameTracks(w: World, w': World, kind: Field, had: bool)
    requires SameFlags(w, w')
    ensures Tracks(w, kind, had) ==> Tracks(w', kind, had)
    ensures Steers(w) ==> Steers(w')
  {
    hide KeyWritten, KeySeen, Astray;
  }

  lemma NotedFlags(w: World, write: Write)
    ensures Noted(w, write) == Get(w, CIPHER_SET) || Noted(w, write) == Get(w, AUTHENTICATION_SET)
            || SameFlags(w, Noted(w, write))
  {
    hide Get, WrittenAttributes;
  }

  lemma DoTracks(w: World, item: Item, kind: Field, had: bool)
    requires Tracks(w, kind, had) && Steers(w) && IsKeyField(kind)
    ensures Tracks(Do(w, item), kind, had) && Steers(Do(w, item))
  {
    hide Tracks, Steers, Noted, Get, Written;
    if item.Change? {
      var w1 := w.(node := w.node.Set(item.write));
      SetTracks(w, item.write, kind, had);
      SetSteers(w, item.write);
      NotedFlags(w1, item.write);
      GetTracks(w1, CIPHER_SET, kind, had);
      GetTracks(w1, AUTHENTICATION_SET, kind, had);
      GetSteers(w1, CIPHER_SET);
      GetSteers(w1, AUTHENTICATION_SET);
      var w2 := Noted(w1, item.write);
      if SameFlags(w1, w2) { SameTracks(w1, w2, kind, had); }
      SameTracks(w2, w2.(changed := true), kind, had);
      SameTracks(w1, w1.(res := INVALID_VALUE), kind, had);
    } else {
      SameTracks(w, Do(w, item), kind, had);
    }
  }

  lemma {:induction false} DoAllTracks(w: World, items: seq<Item>, kind: Field, had: bool)
    requires Tracks(w, kind, had) && Steers(w) && IsKeyField(kind)
    ensures Tracks(DoAll(w, items), kind, had) && Steers(DoAll(w, items))
    decreases |items|
  {
    hide Tracks, Steers, Do;
    if items != [] {
      DoTracks(w, items[0], kind, had);
      DoAllTracks(Do(w, items[0]), items[1..], kind, had);
    }
  }

  lemma AutostartTracks(w: World, on: bool, kind: Field, had: bool)
    requires Tracks(w, kind, had) && Steers(w) && IsKeyField(kind)
    ensures var w' := w.(node := w.node.SetAutostart(on)); Tracks(w', kind, had) && Steers(w')
  {
    hide Tracks, Astray, KeyWritten, KeySeen;
    var e := Autostart(on, w.node.Next());
    BesideTracks(w, w.(node := w.node.SetAutostart(on)), e, kind, had);
    AstrayStep(w.node.log, e);
  }

  /** A stop or start that is made changes the node alone ... */
  lemma SwitchTracks(w: World, w': World, e: Entry, kind: Field, had: bool)
    requires Tracks(w, kind, had) && Steers(w) && IsKeyField(kind)
    requires e.Stop? || e.Start?
    requires w'.node.log == w.node.log + [e] && w'.cache == w.cache && w'.node.settings == w.node.settings
    requires w'.node.running == if Switches(e) then !w.node.running else w.node.running
    ensures Tracks(w', kind, had) && Steers(w')
  {
    hide Tracks, Astray;
    BesideTracks(w, w', e, kind, had);
    AstrayStep(w.node.log, e);
  }

  /** ... and the poll after it the cache, when it is answered. */
  lemma PollTracks(w: World, w': World, on: bool, kind: Field, had: bool)
    requires Tracks(w, kind, had) && Steers(w) && IsKeyField(kind)
    requires w'.node == w.node.Poll(w.node.running == on)
    requires w'.cache == if w.node.Readable() then w.cache.(stopped := !on) else w.cache
    ensures Tracks(w', kind, had) && Steers(w')
  {
    hide Tracks, Astray;
    var e := Polled(w.node.Readable(), w.node.running == on);
    BesideTracks(w, w', e, kind, had);
    AstrayStep(w.node.log, e);
  }

  lemma DoStopTracks(w: World, kind: Field, had: bool)
    requires Tracks(w, kind, had) && Steers(w) && IsKeyField(kind)
    ensures Tracks(DoStop(w), kind, had) && Steers(DoStop(w))
  {
    hide Tracks, Steers;
    var w0 := w.(node := w.node.SetAutostart(false));
    AutostartTracks(w, false, kind, had);
    var e := Stop(w0.node.running, w0.node.Next());
    var w1 := w0.(node := w0.node.(running := w0.node.running && !Switches(e)).Asked(e));
    SwitchTracks(w0, w1, e, kind, had);
    if e.outcome.Refused? || (e.outcome.Accepted? && !e.running) {
      SameTracks(w1, DoStop(w), kind, had);
    } else {
      var w2 := w1.(node := w1.node.Poll(!w1.node.running),
                    cache := if w1.node.Readable() then w1.cache.(stopped := true) else w1.cache);
      PollTracks(w1, w2, false, kind, had);
      SameTracks(w2, DoStop(w), kind, had);
    }
  }

  lemma StartedTracks(w: World, kind: Field, had: bool)
    requires Tracks(w, kind, had) && Steers(w) && IsKeyField(kind) && w.node.running
    ensures var w2 := Refresh(w);
            var w3 := w2.(node := w2.node.Poll(w2.node.running),
                          cache := if w2.node.Readable() then w2.cache.(stopped := false) else w2.cache);
            Tracks(w3, kind, had) && Steers(w3)
  {
    hide Tracks, Steers, Refresh;
    var w2 := Refresh(w);
    RefreshIsGetAll(w);
    GetAllTracks(w, ALL_FIELDS, kind, had);
    GetAllSteers(w, ALL_FIELDS);
    GetAllKeeps(w, ALL_FIELDS);
    var w3 := w2.(node := w2.node.Poll(w2.node.running),
                  cache := if w2.node.Readable() then w2.cache.(stopped := false) else w2.cache);
    PollTracks(w2, w3, true, kind, had);
  }

  lemma DoStartTracks(w: World, kind: Field, had: bool)
    requires Tracks(w, kind, had) && Steers(w) && IsKeyField(kind)
    ensures Tracks(DoStart(w), kind, had) && Steers(DoStart(w))
  {
    hide Tracks, Steers, Refresh;
    var (n, res) := w.node.StartRequest();
    var w1 := w.(node := n);
    SwitchTracks(w, w1, Start(w.node.running, w.node.Next()), kind, had);
    if res == OK {
      StartedTracks(w1, kind, had);
      var w2 := Refresh(w1);
      if w2.node.Readable() {
        var w3 := w2.(node := w2.node.Poll(w2.node.running), cache := w2.cache.(stopped := false));
        AutostartTracks(w3, true, kind, had);
        SameTracks(w3.(node := w3.node.SetAutostart(true)), DoStart(w), kind, had);
      } else {
        SameTracks(w2.(node := w2.node.Poll(w2.node.running)), DoStart(w), kind, had);
      }
    } else {
      SameTracks(w1, DoStart(w), kind, had);
    }
  }

  lemma HandleTracks(c: Cache, n: Node, cfg: Config, kind: Field, had: bool)
    requires Tracks(Begin(c, n), kind, had) && Steers(Begin(c, n)) && IsKeyField(kind)
    ensures Tracks(Handle(c, n, cfg), kind, had) && Steers(Handle(c, n, cfg))
  {
    hide Tracks, Steers, Get, DoStop, DoAll, DoStart, Refresh, Items;
    var w0 := Get(Begin(c, n), STATUS);
    GetTracks(Begin(c, n), STATUS, kind, had);
    GetSteers(Begin(c, n), STATUS);
    var stopped := w0.cache.stopped;
    var w1 := w0.(changed := StateChange(stopped, cfg));
    SameTracks(w0, w1, kind, had);
    var w2 := if StopStack(stopped, cfg) then DoStop(w1) else w1;
    DoStopTracks(w1, kind, had);
    var w3 := DoAll(w2, Items(w2.cache.attributes, cfg));
    DoAllTracks(w2, Items(w2.cache.attributes, cfg), kind, had);
    var w4 := if RestartStack(stopped, cfg) then DoStart(w3) else w3;
    DoStartTracks(w3, kind, had);
    RefreshIsGetAll(w4);
    GetAllTracks(w4, ALL_FIELDS, kind, had);
    GetAllSteers(w4, ALL_FIELDS);
  }

  // ----------------------------------------------------------- the attributes

  /** Nothing of the attribute happens. */
  lemma OtherKnows(w: World, w': World, e: Entry, f: Field)
    requires Knows(w, f) && w'.node.log == w.node.log + [e]
    requires !(e.Wrote? && Writes(e.write, f)) && e != Got(f, true)
    requires Value(w'.cache.attributes, f) == Value(w.cache.attributes, f)
    requires Value(w'.node.settings.attributes, f) == Value(w.node.settings.attributes, f)
    ensures Knows(w', f)
  {
    hide Overlooked, Value;
    OverlookedStep(w.node.log, e, f);
  }

  lemma SameKnows(w: World, w': World, f: Field)
    requires w'.node.log == w.node.log && w'.node.settings == w.node.settings
    requires w'.cache.attributes == w.cache.attributes
    ensures Knows(w, f) ==> Knows(w', f)
  {
    hide Overlooked, Value;
  }

  lemma GetKnows(w: World, g: Field, f: Field)
    requires Knows(w, f) && IsAttribute(f)
    ensures Knows(Get(w, g), f)
  {
    hide Overlooked;
    OverlookedStep(w.node.log, Got(g, w.node.Readable()), f);
  }

  lemma {:induction false} GetAllKnows(w: World, fs: seq<Field>, f: Field)
    requires Knows(w, f) && IsAttribute(f)
    ensures Knows(GetAll(w, fs), f)
    decreases |fs|
  {
    hide Get, Knows;
    if fs != [] {
      GetKnows(w, fs[0], f);
      GetAllKnows(Get(w, fs[0]), fs[1..], f);
    }
  }

  /** An attribute is only written when the cache holds another value for it. */
  predicate Differs(a: Attributes, item: Item) {
    item.Change? ==> forall f :: Writes(item.write, f) ==> Value(WrittenAttributes(a, item.write), f) != Value(a, f)
  }

  lemma ItemsDiffer(a: Attributes, cfg: Config)
    ensures Differs(a, RoleItem(a, cfg)) && Differs(a, NodeAddressItem(a, cfg))
    ensures Differs(a, NetworkAddressItem(a, cfg)) && Differs(a, NetworkChannelItem(a, cfg))
    ensures Differs(a, AppConfigItem(cfg)) && Differs(a, CipherItem(cfg)) && Differs(a, AuthenticationItem(cfg))
    ensures Differs(a, AcRangeItem(a, cfg))
  {}

  /** Writing an attribute sets its value, whatever it was, and no other. */
  lemma WrittenValue(a: Attributes, b: Attributes, write: Write, f: Field)
    ensures Writes(write, f) ==> Value(WrittenAttributes(a, write), f) == Value(WrittenAttributes(b, write), f)
    ensures !Writes(write, f) ==> Value(WrittenAttributes(a, write), f) == Value(a, f)
  {}

  lemma NotedKnows(w: World, write: Write)
    ensures w.node.log <= Noted(w, write).node.log
    ensures Noted(w, write).cache.attributes == WrittenAttributes(w.cache.attributes, write)
    ensures write.CipherKey? || write.AuthenticationKey? || Noted(w, write).node == w.node
  {}

  lemma DoKnows(w: World, item: Item, f: Field)
    requires Knows(w, f) && IsAttribute(f) && Differs(w.cache.attributes, item)
    ensures Knows(Do(w, item), f)
  {
    hide Overlooked, Value, WrittenAttributes, Written, Get, Writes;
    if item.Change? {
      var write, o := item.write, w.node.Next();
      var w1 := w.(node := w.node.Set(write));
      var a, b := w.cache.attributes, w.node.settings.attributes;
      OverlookedStep(w.node.log, Wrote(write, w.node.running, o), f);
      WrittenParts(w.node.settings, write);
      WrittenValue(a, b, write, f);
      WrittenValue(b, a, write, f);
      if o.Accepted? {
        // The cache takes the value over at once; until then it is wrong.
        var w2 := w1.(cache := w1.cache.(attributes := WrittenAttributes(a, write)));
        assert Knows(w2, f);
        NotedKeepsKnowing(w1, w2, write, f);
        SameKnows(Noted(w1, write), Do(w, item), f);
      } else {
        assert Knows(w1, f);
        SameKnows(w1, Do(w, item), f);
      }
    }
  }

  lemma NotedKeepsKnowing(w1: World, w2: World, write: Write, f: Field)
    requires w2 == w1.(cache := w1.cache.(attributes := WrittenAttributes(w1.cache.attributes, write)))
    requires Knows(w2, f) && IsAttribute(f)
    ensures Knows(Noted(w1, write), f)
  {
    hide Overlooked, Value, Get, Knows;
    if write.CipherKey? {
      assert w2 == w1;
      GetKnows(w1, CIPHER_SET, f);
    } else if write.AuthenticationKey? {
      assert w2 == w1;
      GetKnows(w1, AUTHENTICATION_SET, f);
    } else if write.AppConfigData? {
      assert w2 == w1;
    }
  }

  /** One part after the other, each compared with what the cache holds by then. */
  lemma WritingKnows(w: World, cfg: Config, f: Field)
    requires Knows(w, f) && IsAttribute(f)
    ensures Knows(DoAll(w, Items(w.cache.attributes, cfg)), f)
  {
    hide Knows, Do, DoAll, Items, Differs, RoleItem, NodeAddressItem, NetworkAddressItem, NetworkChannelItem,
      AppConfigItem, CipherItem, AuthenticationItem, AcRangeItem;
    DoAllInTurn(w, cfg);
    ItemsDiffer(w.cache.attributes, cfg);
    DoKnows(w, RoleItem(w.cache.attributes, cfg), f);
    var w1 := Do(w, RoleItem(w.cache.attributes, cfg));
    ItemsDiffer(w1.cache.attributes, cfg);
    DoKnows(w1, NodeAddressItem(w1.cache.attributes, cfg), f);
    var w2 := Do(w1, NodeAddressItem(w1.cache.attributes, cfg));
    ItemsDiffer(w2.cache.attributes, cfg);
    DoKnows(w2, NetworkAddressItem(w2.cache.attributes, cfg), f);
    var w3 := Do(w2, NetworkAddressItem(w2.cache.attributes, cfg));
    ItemsDiffer(w3.cache.attributes, cfg);
    DoKnows(w3, NetworkChannelItem(w3.cache.attributes, cfg), f);
    var w4 := Do(w3, NetworkChannelItem(w3.cache.attributes, cfg));
    ItemsDiffer(w4.cache.attributes, cfg);
    DoKnows(w4, AppConfigItem(cfg), f);
    var w5 := Do(w4, AppConfigItem(cfg));
    ItemsDiffer(w5.cache.attributes, cfg);
    DoKnows(w5, CipherItem(cfg), f);
    var w6 := Do(w5, CipherItem(cfg));
    ItemsDiffer(w6.cache.attributes, cfg);
    DoKnows(w6, AuthenticationItem(cfg), f);
    var w7 := Do(w6, AuthenticationItem(cfg));
    ItemsDiffer(w7.cache.attributes, cfg);
    DoKnows(w7, AcRangeItem(w7.cache.attributes, cfg), f);
  }

  lemma LoggedKnows(w: World, n: Node, e: Entry, f: Field)
    requires Knows(w, f) && !e.Wrote? && !e.Got? && n.log == w.node.log + [e] && n.settings == w.node.settings
    ensures Knows(w.(node := n), f)
  {
    hide Value, Overlooked, Writes;
    OtherKnows(w, w.(node := n), e, f);
  }

  lemma DoStopKnows(w: World, f: Field)
    requires Knows(w, f)
    ensures Knows(DoStop(w), f)
  {
    hide Knows;
    var n := w.node.SetAutostart(false);
    LoggedKnows(w, n, Autostart(false, w.node.Next()), f);
    var w1 := w.(node := n);
    var e := Stop(n.running, n.Next());
    var n1 := n.(running := n.running && !n.Next().Done()).Asked(e);
    LoggedKnows(w1, n1, e, f);
    var w2 := w1.(node := n1);
    if e.outcome.Refused? || (e.outcome.Accepted? && !e.running) {
      SameKnows(w2, DoStop(w), f);
    } else {
      LoggedKnows(w2, n1.Poll(!n1.running), Polled(n1.Readable(), !n1.running), f);
      SameKnows(w2.(node := n1.Poll(!n1.running)), DoStop(w), f);
    }
  }

  lemma DoStartKnows(w: World, f: Field)
    requires Knows(w, f) && IsAttribute(f)
    ensures Knows(DoStart(w), f)
  {
    hide Knows, Refresh;
    var (n, res) := w.node.StartRequest();
    LoggedKnows(w, n, Start(w.node.running, w.node.Next()), f);
    var w1 := w.(node := n);
    if res == OK {
      RefreshIsGetAll(w1);
      GetAllKnows(w1, ALL_FIELDS, f);
      StartedKnows(Refresh(w1), f);
      SameKnows(Started(Refresh(w1)), DoStart(w), f);
    } else {
      SameKnows(w1, DoStart(w), f);
    }
  }

  /** The end of a start: the poll and, when it is answered, the autostart request. */
  function Started(w: World): World {
    var n := w.node.Poll(w.node.running);
    w.(node := if w.node.Readable() then n.SetAutostart(true) else n)
  }

  lemma StartedKnows(w: World, f: Field)
    requires Knows(w, f)
    ensures Knows(Started(w), f)
  {
    hide Knows;
    var n := w.node.Poll(w.node.running);
    LoggedKnows(w, n, Polled(w.node.Readable(), w.node.running), f);
    if w.node.Readable() {
      LoggedKnows(w.(node := n), n.SetAutostart(true), Autostart(true, n.Next()), f);
    }
  }

  lemma HandleKnows(c: Cache, n: Node, cfg: Config, f: Field)
    requires Knows(Begin(c, n), f) && IsAttribute(f)
    ensures Knows(Handle(c, n, cfg), f)
  {
    hide Knows, Get, DoStop, DoAll, DoStart, Refresh, Items;
    var w0 := Get(Begin(c, n), STATUS);
    GetKnows(Begin(c, n), STATUS, f);
    var stopped := w0.cache.stopped;
    var w1 := w0.(changed := StateChange(stopped, cfg));
    SameKnows(w0, w1, f);
    DoStopKnows(w1, f);
    var w2 := if StopStack(stopped, cfg) then DoStop(w1) else w1;
    WritingKnows(w2, cfg, f);
    var w3 := DoAll(w2, Items(w2.cache.attributes, cfg));
    DoStartKnows(w3, f);
    var w4 := if RestartStack(stopped, cfg) then DoStart(w3) else w3;
    RefreshIsGetAll(w4);
    GetAllKnows(w4, ALL_FIELDS, f);
  }

  // ------------------------------------------------------------- the theorem

  /** The key flag is right: no key was given to a node without one, or its flag was
      read after that. */
  ghost predicate KeyKnown(n: Node, log: seq<Entry>, kind: Field) {
    HasKey(n.settings, kind) || !KeyWritten(log, kind) || KeySeen(log, kind)
  }

  lemma KeyFlagIff(c: Cache, n: Node, cfg: Config, kind: Field)
    requires Agree(Begin(c, n)) && n.log == [] && IsKeyField(kind)
    ensures var w := Handle(c, n, cfg);
            && (KeyFlag(w.cache, kind) == HasKey(w.node.settings, kind) <==> KeyKnown(n, w.node.log, kind))
            && (w.cache.stopped == !w.node.running <==> !Astray(w.node.log))
  {
    hide Handle, KeyWritten, KeySeen;
    NothingHappened(kind);
    HandleTracks(c, n, cfg, kind, HasKey(n.settings, kind));
    var w := Handle(c, n, cfg);
    if KeySeen(w.node.log, kind) { SeenIsWritten(w.node.log, kind); }
  }

  lemma NothingHappened(kind: Field)
    ensures !KeyWritten([], kind) && !KeySeen([], kind) && !Astray([])
  {}

  lemma AttributeIff(c: Cache, n: Node, cfg: Config, f: Field)
    requires Agree(Begin(c, n)) && n.log == [] && IsAttribute(f)
    ensures var w := Handle(c, n, cfg);
            Value(w.cache.attributes, f) == Value(w.node.settings.attributes, f) <==> !Overlooked(w.node.log, f)
  {
    hide Handle, Value;
    assert !Overlooked([], f);
    HandleKnows(c, n, cfg, f);
  }

  lemma AttributesByValue(a: Attributes, b: Attributes)
    ensures a == b <==> && Value(a, ROLE) == Value(b, ROLE) && Value(a, NODE_ADDRESS) == Value(b, NODE_ADDRESS)
                        && Value(a, NETWORK_ADDRESS) == Value(b, NETWORK_ADDRESS)
                        && Value(a, NETWORK_CHANNEL) == Value(b, NETWORK_CHANNEL)
                        && Value(a, AC_RANGE) == Value(b, AC_RANGE)
  {}

  ghost predicate NothingOverlooked(log: seq<Entry>) {
    && !Overlooked(log, ROLE) && !Overlooked(log, NODE_ADDRESS) && !Overlooked(log, NETWORK_ADDRESS)
    && !Overlooked(log, NETWORK_CHANNEL) && !Overlooked(log, AC_RANGE)
  }

  /** For every request, whatever is refused or lost and whichever reads fail: the
      cache still agrees with the node if and only if no write of an attribute was
      overlooked, each key flag is known and the log did not go astray. */
  lemma AgreementSurvivesIff(c: Cache, n: Node, cfg: Config)
    requires Agree(Begin(c, n)) && n.log == []
    ensures var w := Handle(c, n, cfg);
            && (forall f :: IsAttribute(f) ==>
                  (Value(w.cache.attributes, f) == Value(w.node.settings.attributes, f)
                   <==> !Overlooked(w.node.log, f)))
            && (AttributesAgree(w) <==> NothingOverlooked(w.node.log))
            && (w.cache.cipherKeySet == w.node.settings.cipherKey.Some? <==> KeyKnown(n, w.node.log, CIPHER_SET))
            && (w.cache.authenticationKeySet == w.node.settings.authenticationKey.Some?
                <==> KeyKnown(n, w.node.log, AUTHENTICATION_SET))
            && (w.cache.stopped == !w.node.running <==> !Astray(w.node.log))
            && (Agree(w) <==>
                  && NothingOverlooked(w.node.log)
                  && KeyKnown(n, w.node.log, CIPHER_SET) && KeyKnown(n, w.node.log, AUTHENTICATION_SET)
                  && !Astray(w.node.log))
  {
    hide Handle, KeyKnown, Astray, Overlooked, Value;
    var w := Handle(c, n, cfg);
    forall f | IsAttribute(f)
      ensures Value(w.cache.attributes, f) == Value(w.node.settings.attributes, f) <==> !Overlooked(w.node.log, f)
    {
      AttributeIff(c, n, cfg, f);
    }
    AttributesByValue(w.cache.attributes, w.node.settings.attributes);
    KeyFlagIff(c, n, cfg, CIPHER_SET);
    KeyFlagIff(c, n, cfg, AUTHENTICATION_SET);
  }

  // ------------------------------------- what a caller can see beforehand

  lemma AgreeGet(w: World, f: Field)
    requires Agree(w)
    ensures Agree(Get(w, f))
  {}

  lemma {:induction false} AgreeGetAll(w: World, fs: seq<Field>)
    requires Agree(w)
    ensures Agree(GetAll(w, fs))
    decreases |fs|
  {
    hide Get, Agree;
    if fs != [] {
      AgreeGet(w, fs[0]);
      AgreeGetAll(Get(w, fs[0]), fs[1..]);
    }
  }

  ghost predicate HasKeys(n: Node) {
    n.settings.cipherKey.Some? && n.settings.authenticationKey.Some?
  }

  predicate IsKeyItem(item: Item) {
    item.Change? && (item.write.CipherKey? || item.write.AuthenticationKey?)
  }

  lemma AgreeDo(w: World, item: Item)
    requires Agree(w) && NoneUnheard(w.node) && (IsKeyItem(item) ==> HasKeys(w.node))
    ensures Agree(Do(w, item)) && NoneUnheard(Do(w, item).node)
    ensures HasKeys(w.node) ==> HasKeys(Do(w, item).node)
  {
    hide Written, WrittenAttributes, Get, NoneUnheard;
    DoHears(w, item);
    if item.Change? {
      var w1 := w.(node := w.node.Set(item.write));
      WrittenParts(w.node.settings, item.write);
      GetKeeps(w1, CIPHER_SET);
      GetKeeps(w1, AUTHENTICATION_SET);
      if IsKeyItem(item) {
        AgreeGet(w1, CIPHER_SET);
        AgreeGet(w1, AUTHENTICATION_SET);
      }
    }
  }

  lemma {:induction false} AgreeDoAll(w: World, items: seq<Item>)
    requires Agree(w) && NoneUnheard(w.node) && (HasKeys(w.node) || forall item :: item in items ==> !IsKeyItem(item))
    ensures Agree(DoAll(w, items))
    decreases |items|
  {
    hide Do, Agree, NoneUnheard, HasKeys, IsKeyItem;
    if items != [] {
      AgreeDo(w, items[0]);
      AgreeDoAll(Do(w, items[0]), items[1..]);
    }
  }

  lemma OnlyKeysAreKeyItems(a: Attributes, cfg: Config)
    requires cfg.keys.None?
    ensures forall item :: item in Items(a, cfg) ==> !IsKeyItem(item)
  {}

  /** A request that neither stops nor starts the stack and gives no key to a node
      without one leaves the cache in agreement whichever reads fail, if every
      change that the node makes is confirmed. */
  lemma AgreesWhicheverReadsFail(c: Cache, n: Node, cfg: Config)
    requires Agree(Begin(c, n)) && NoneUnheard(n)
    requires !StopStack(!n.running, cfg) && !RestartStack(!n.running, cfg) && (cfg.keys.None? || HasKeys(n))
    ensures Agree(Handle(c, n, cfg))
  {
    hide Get, DoAll, Items, Refresh, NoneUnheard, StopStack, RestartStack, StateChange;
    var w0 := Get(Begin(c, n), STATUS);
    AgreeGet(Begin(c, n), STATUS);
    GetKeeps(Begin(c, n), STATUS);
    GetHears(Begin(c, n), STATUS);
    var w1 := w0.(changed := StateChange(!n.running, cfg));
    if cfg.keys.None? { OnlyKeysAreKeyItems(w1.cache.attributes, cfg); }
    AgreeDoAll(w1, Items(w1.cache.attributes, cfg));
    var w3 := DoAll(w1, Items(w1.cache.attributes, cfg));
    RefreshIsGetAll(w3);
    AgreeGetAll(w3, ALL_FIELDS);
  }

  // -------------------------------------------------------- ways to disagree

  /** A request to a stopped node that says nothing of its on/off state. */
  lemma HandleStopped(c: Cache, n: Node, cfg: Config)
    requires Get(Begin(c, n), STATUS).cache.stopped && cfg.sinkOn.None?
    ensures var w0 := Get(Begin(c, n), STATUS).(changed := false);
            var w := DoAll(w0, Items(w0.cache.attributes, cfg));
            Handle(c, n, cfg) == if w.changed then Refresh(w) else w
  {
    hide Get, DoAll, Items, Refresh;
  }

  lemma ChannelOnly(w: World, v: nat)
    ensures var cfg := Config(None, None, None, Some(v), None, None, None, None);
            DoAll(w, Items(w.cache.attributes, cfg)) == Do(w, NetworkChannelItem(w.cache.attributes, cfg))
  {
    hide DoAll, Get;
    var cfg := Config(None, None, None, Some(v), None, None, None, None);
    DoAllInTurn(w, cfg);
    KeepKeeps(w);
    KeepKeeps(Do(w, NetworkChannelItem(w.cache.attributes, cfg)));
  }

  /** Only the channel is set, on a stopped node that makes the change, but the
      confirm is lost: the request fails, and the cache keeps the old channel. */
  lemma ChannelGoesStale(c: Cache, n: Node, v: nat)
    requires Agree(Begin(c, n)) && !n.running && n.outcomes != [] && n.outcomes[0] == Unheard
    requires v <= UINT8_MAX && v != n.settings.attributes.networkChannel
    ensures var w := Handle(c, n, Config(None, None, None, Some(v), None, None, None, None));
            && w.res == INVALID_VALUE && w.node.settings.attributes.networkChannel == v
            && w.cache.attributes.networkChannel == n.settings.attributes.networkChannel
  {
    hide Handle, Get, DoAll, Items, Refresh;
    var w0 := Get(Begin(c, n), STATUS);
    AgreeGet(Begin(c, n), STATUS);
    GetKeeps(Begin(c, n), STATUS);
    HandleStopped(c, n, Config(None, None, None, Some(v), None, None, None, None));
    ChannelOnly(w0.(changed := false), v);
  }

  /** Only OFF is requested, of a running node, but the stop request is lost: the
      request succeeds, and the stack stays on. */
  lemma StopGoesMissing(c: Cache, n: Node)
    requires Agree(Begin(c, n)) && HeardAfterFirst(n) && n.running && n.outcomes == [Accepted, Lost]
    ensures var w := Handle(c, n, Config(None, None, None, None, None, None, None, Some(false)));
            w.res == OK && w.node.running
  {
    hide Refresh, DoAll, Items, Get, Heard, HeardAfterFirst;
    var cfg := Config(None, None, None, None, None, None, None, Some(false));
    var w0 := Get(Begin(c, n), STATUS);
    FirstRead(Begin(c, n));
    var w1 := w0.(changed := StateChange(false, cfg));
    StaysHeard(w0.node, w1.node);
    var w2 := DoStop(w1);
    var o := DoStopKeeps(w1);
    assert w1.node.SetAutostart(false).Next() == Lost;
    NothingToWrite(w2, false);
    RefreshIsGetAll(w2);
    GetAllKeeps(w2, ALL_FIELDS);
  }

  /** The next k reads all fail. */
  ghost predicate Deaf(n: Node, k: nat) {
    k <= |n.unreadable| && forall i :: 0 <= i < k ==> n.unreadable[i]
  }

  lemma DeafGet(w: World, f: Field, k: nat)
    requires Deaf(w.node, k + 1)
    ensures Get(w, f).cache == w.cache && Deaf(Get(w, f).node, k)
  {
    assert w.node.unreadable[0];
  }

  lemma {:induction false} DeafGetAll(w: World, fs: seq<Field>)
    requires Deaf(w.node, |fs|)
    ensures GetAll(w, fs).cache == w.cache
    decreases |fs|
  {
    hide Get, Deaf;
    if fs != [] {
      DeafGet(w, fs[0], |fs| - 1);
      DeafGetAll(Get(w, fs[0]), fs[1..]);
    }
  }

  lemma KeysOnly(w: World, keys: Keys)
    ensures var cfg := Config(None, None, None, None, None, Some(keys), None, None);
            DoAll(w, Items(w.cache.attributes, cfg))
            == Do(Do(w, Change(CipherKey(keys.cipher))), Change(AuthenticationKey(keys.authentication)))
  {
    hide DoAll, Get;
    var cfg := Config(None, None, None, None, None, Some(keys), None, None);
    DoAllInTurn(w, cfg);
    KeepKeeps(w);
    var w' := Do(Do(w, CipherItem(cfg)), AuthenticationItem(cfg));
    KeepKeeps(w');
  }

  lemma KeepKeeps(w: World)
    ensures Do(w, Keep) == w
  {}

  /** Only the keys are set, on a stopped node that has none, while no read is
      answered: the node accepts the keys and the cache never learns of it. */
  lemma KeyFlagGoesStale(c: Cache, n: Node, keys: Keys)
    requires Agree(Begin(c, n)) && !n.running && n.settings.cipherKey.None? && n.outcomes == [] && Deaf(n, 11)
    ensures var w := Handle(c, n, Config(None, None, None, None, None, Some(keys), None, None));
            && w.res == OK && w.node.settings.cipherKey == Some(keys.cipher) && !w.cache.cipherKeySet
  {
    hide Handle, Get, Refresh, Do, DoAll, Deaf, Items, Written, Added;
    var cfg := Config(None, None, None, None, None, Some(keys), None, None);
    var w0 := Get(Begin(c, n), STATUS);
    DeafGet(Begin(c, n), STATUS, 10);
    GetKeeps(Begin(c, n), STATUS);
    HandleStopped(c, n, cfg);
    var w5 := w0.(changed := false);
    KeysOnly(w5, keys);
    var w6 := Do(w5, Change(CipherKey(keys.cipher)));
    DeafDo(w5, CipherKey(keys.cipher), 9);
    var w7 := Do(w6, Change(AuthenticationKey(keys.authentication)));
    DeafDo(w6, AuthenticationKey(keys.authentication), 8);
    WrittenParts(w5.node.settings, CipherKey(keys.cipher));
    WrittenParts(w6.node.settings, AuthenticationKey(keys.authentication));
    RefreshIsGetAll(w7);
    GetAllKeeps(w7, ALL_FIELDS);
    DeafGetAll(w7, ALL_FIELDS);
  }

  lemma DeafDo(w: World, write: Write, k: nat)
    requires Deaf(w.node, k + 1) && w.node.outcomes == [] && (write.CipherKey? || write.AuthenticationKey?)
    ensures var w' := Do(w, Change(write));
            && w'.cache == w.cache && Deaf(w'.node, k) && w'.node.outcomes == [] && w'.changed && w'.res == w.res
            && w'.node.settings == Written(w.node.settings, write)
  {
    hide Get, Deaf;
    var w1 := w.(node := w.node.Set(write));
    assert Deaf(w1.node, k + 1) by { DeafSet(w.node, write, k + 1); }
    var f := if write.CipherKey? then CIPHER_SET else AUTHENTICATION_SET;
    DeafGet(w1, f, k);
    GetKeeps(w1, f);
  }

  lemma DeafSet(n: Node, write: Write, k: nat)
    requires Deaf(n, k)
    ensures Deaf(n.Set(write), k)
  {}

  lemma NothingToWrite(w: World, on: bool)
    ensures DoAll(w, Items(w.cache.attributes, Config(None, None, None, None, None, None, None, Some(on)))) == w
  {
    hide DoAll, Get;
    DoAllInTurn(w, Config(None, None, None, None, None, None, None, Some(on)));
    KeepKeeps(w);
  }

  /** Only OFF is requested, of a running node that accepts everything, and no read
      but the first is answered: the node stops and the cache never learns of it. */
  lemma StoppedFlagGoesStale(c: Cache, n: Node)
    requires Agree(Begin(c, n)) && n.running && n.outcomes == [] && n.unreadable != []
    requires !n.unreadable[0] && Deaf(n.Read(STATUS), 9)
    ensures var w := Handle(c, n, Config(None, None, None, None, None, None, None, Some(false)));
            !w.node.running && !w.cache.stopped
  {
    hide Refresh, DoAll, Deaf, Items;
    var cfg := Config(None, None, None, None, None, None, None, Some(false));
    var w0 := Get(Begin(c, n), STATUS);
    var w1 := w0.(changed := StateChange(false, cfg));
    var w2 := DoStop(w1);
    DeafStop(w1, 8);
    NothingToWrite(w2, false);
    RefreshIsGetAll(w2);
    GetAllKeeps(w2, ALL_FIELDS);
    DeafGetAll(w2, ALL_FIELDS);
  }

  lemma DeafStop(w: World, k: nat)
    requires Deaf(w.node, k + 1) && w.node.running && w.node.outcomes == []
    ensures var w' := DoStop(w);
            !w'.node.running && w'.cache == w.cache && w'.changed == w.changed && Deaf(w'.node, k)
  {
    assert w.node.unreadable[0];
  }
}
