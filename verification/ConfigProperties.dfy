/** What a set-config request does to the node and to the copy of it, for every
    request and whatever becomes of the changes it asks for. */
module ConfigProperties {
  import opened Common
  import opened AppResults
  import opened SinkNode
  import opened SetConfig

  ghost predicate AttributesAgree(w: World) {
    w.cache.attributes == w.node.settings.attributes
  }

  ghost predicate Agree(w: World) {
    && AttributesAgree(w)
    && w.cache.cipherKeySet == w.node.settings.cipherKey.Some?
    && w.cache.authenticationKeySet == w.node.settings.authenticationKey.Some?
    && w.cache.stopped == !w.node.running
  }

  /** Every read to come is answered. */
  ghost predicate Heard(n: Node) {
    forall i :: 0 <= i < |n.unreadable| ==> !n.unreadable[i]
  }

  ghost predicate InTouch(w: World) {
    Agree(w) && Heard(w.node)
  }

  /** The entries a stretch of work added to the log. */
  function Added(w: World, w': World): seq<Entry>
    requires w.node.log <= w'.node.log
  {
    w'.node.log[|w.node.log|..]
  }

  /** The same but for reads that were made. */
  ghost predicate OnlyRead(w: World, w': World) {
    && w'.node == w.node.(unreadable := w'.node.unreadable, log := w'.node.log)
    && w'.res == w.res && w'.changed == w.changed
    && w.node.log <= w'.node.log && forall e :: e in Added(w, w') ==> e.Got?
  }

  lemma AddedTwice(w: World, w1: World, w2: World)
    requires w.node.log <= w1.node.log && w1.node.log <= w2.node.log
    ensures w.node.log <= w2.node.log && Added(w, w2) == Added(w, w1) + Added(w1, w2)
  {}

  lemma OnlyReadTwice(w: World, w1: World, w2: World)
    requires OnlyRead(w, w1) && OnlyRead(w1, w2)
    ensures OnlyRead(w, w2)
  {
    AddedTwice(w, w1, w2);
  }

  lemma GetKeeps(w: World, f: Field)
    ensures OnlyRead(w, Get(w, f))
    ensures AttributesAgree(w) ==> AttributesAgree(Get(w, f))
    ensures Heard(w.node) ==> Heard(Get(w, f).node)
    ensures InTouch(w) ==> InTouch(Get(w, f)) && Get(w, f).cache == w.cache
  {}

  lemma NothingRead(w: World)
    ensures OnlyRead(w, w)
  {}

  lemma {:induction false} GetAllKeeps(w: World, fs: seq<Field>)
    ensures OnlyRead(w, GetAll(w, fs))
    ensures AttributesAgree(w) ==> AttributesAgree(GetAll(w, fs))
    ensures Heard(w.node) ==> Heard(GetAll(w, fs).node)
    ensures InTouch(w) ==> InTouch(GetAll(w, fs)) && GetAll(w, fs).cache == w.cache
    decreases |fs|
  {
    hide Get, AttributesAgree, InTouch, OnlyRead, Heard;
    if fs == [] {
      NothingRead(w);
    } else {
      GetKeeps(w, fs[0]);
      GetAllKeeps(Get(w, fs[0]), fs[1..]);
      OnlyReadTwice(w, Get(w, fs[0]), GetAll(w, fs));
    }
  }

  /** Everything the cache holds was copied from this node. */
  lemma GetCopies(w: World, f: Field)
    requires Heard(w.node)
    ensures Heard(Get(w, f).node) && OnlyRead(w, Get(w, f)) && Get(w, f).cache == Copied(w.cache, w.node, f)
  {}

  /** A refresh that can read everything restores agreement, whatever was copied before. */
  lemma RefreshRestores(w: World)
    requires Heard(w.node)
    ensures InTouch(Refresh(w))
  {
    hide Get, Heard, OnlyRead;
    GetAllInTurn(w);
    GetCopies(w, CIPHER_SET);
    var w1 := Get(w, CIPHER_SET);
    GetCopies(w1, AUTHENTICATION_SET);
    var w2 := Get(w1, AUTHENTICATION_SET);
    GetCopies(w2, STATUS);
    var w3 := Get(w2, STATUS);
    GetCopies(w3, AC_RANGE);
    var w4 := Get(w3, AC_RANGE);
    GetCopies(w4, NODE_ADDRESS);
    var w5 := Get(w4, NODE_ADDRESS);
    GetCopies(w5, ROLE);
    var w6 := Get(w5, ROLE);
    GetCopies(w6, NETWORK_ADDRESS);
    var w7 := Get(w6, NETWORK_ADDRESS);
    GetCopies(w7, NETWORK_CHANNEL);
    var w8 := Get(w7, NETWORK_CHANNEL);
    SameNode(w, w1); SameNode(w1, w2); SameNode(w2, w3); SameNode(w3, w4);
    SameNode(w4, w5); SameNode(w5, w6); SameNode(w6, w7); SameNode(w7, w8);
  }

  lemma SameNode(w: World, w': World)
    requires OnlyRead(w, w')
    ensures w'.node.settings == w.node.settings && w'.node.running == w.node.running
  {}

  // ------------------------------------------------------------------ writing

  /** The handler takes the entry for a failure.  A stop that was not confirmed is
      none: only a refusal is, or that the stack was stopped already. */
  predicate Failed(e: Entry) {
    match e
    case Wrote(_, _, o) => !o.Accepted?
    case Stop(running, o) => o.Refused? || (o.Accepted? && !running)
    case Start(running, o) => !o.Accepted? || running
    case _ => false
  }

  /** Entries that no answer depends on. */
  predicate Quiet(e: Entry) {
    e.Autostart? || e.Got? || e.Polled?
  }

  ghost predicate AllQuiet(log: seq<Entry>) {
    forall e :: e in log ==> Quiet(e)
  }

  ghost predicate NothingFailed(log: seq<Entry>) {
    forall e :: e in log ==> !Failed(e)
  }

  lemma DoKeeps(w: World, item: Item)
    ensures var w' := Do(w, item);
            && w'.node.running == w.node.running
            && w.node.log <= w'.node.log
            && (forall e :: e in Added(w, w') ==>
                  e.Got? || (item.Change? && e == Wrote(item.write, w.node.running, w.node.Next())))
            && (item.Change? ==> Wrote(item.write, w.node.running, w.node.Next()) in Added(w, w'))
            && (NothingFailed(Added(w, w')) <==> (item.Change? ==> w.node.Next().Accepted?))
            && (w'.res == OK <==> w.res == OK && !item.TooLarge? && NothingFailed(Added(w, w')))
            && w'.node.settings == (if item.Change? && w.node.Next().Done() then Written(w.node.settings, item.write)
                                    else w.node.settings)
            && (Heard(w.node) ==> Heard(w'.node))
  {
    hide Written, Noted, Added, Heard;
    NothingRead(w);
    if item.Change? {
      var e := Wrote(item.write, w.node.running, w.node.Next());
      var w1 := w.(node := w.node.Set(item.write));
      AddedOne(w, w1, e);
      NotedReads(w1, item.write);
      NothingRead(w1);
      AddedTwice(w, w1, Noted(w1, item.write));
      SameLog(w, Noted(w1, item.write), Do(w, item));
      SameLog(w, w1, Do(w, item));
      StaysHeard(w.node, w1.node);
      assert e in [e];
      OneFails(Added(w, Do(w, item)), e);
    } else {
      SameLog(w, w, Do(w, item));
      assert NothingFailed([]);
    }
  }

  lemma OneFails(log: seq<Entry>, e: Entry)
    requires e in log && forall x :: x in log ==> x.Got? || x == e
    ensures NothingFailed(log) <==> !Failed(e)
  {}

  lemma BothFail(a: seq<Entry>, b: seq<Entry>)
    ensures NothingFailed(a + b) <==> NothingFailed(a) && NothingFailed(b)
  {
    hide Failed;
    assert forall e :: e in a + b <==> e in a || e in b;
  }

  lemma StaysHeard(n: Node, n': Node)
    requires n'.unreadable == n.unreadable
    ensures Heard(n) ==> Heard(n')
  {}

  lemma AddedOne(w: World, w': World, e: Entry)
    requires w'.node.log == w.node.log + [e]
    ensures w.node.log <= w'.node.log && Added(w, w') == [e]
  {}

  lemma SameLog(w: World, w1: World, w2: World)
    requires w.node.log <= w1.node.log
    ensures w1.node.log == w2.node.log ==> w.node.log <= w2.node.log && Added(w, w2) == Added(w, w1)
  {}

  lemma NotedReads(w: World, write: Write)
    ensures OnlyRead(w, Noted(w, write))
    ensures Heard(w.node) ==> Heard(Noted(w, write).node)
  {
    hide Get, WrittenAttributes, Heard;
    GetKeeps(w, CIPHER_SET);
    GetKeeps(w, AUTHENTICATION_SET);
  }

  /** A write that is not heard of is the only thing that makes the attributes
      differ. */
  lemma DoKeepsAgreement(w: World, item: Item)
    requires item.Change? ==> !w.node.Next().Unheard?
    ensures AttributesAgree(w) ==> AttributesAgree(Do(w, item))
    ensures InTouch(w) ==> InTouch(Do(w, item))
  {
    hide Written, WrittenAttributes, Get, Heard;
    if item.Change? {
      var w1 := w.(node := w.node.Set(item.write));
      WrittenParts(w.node.settings, item.write);
      StaysHeard(w.node, w1.node);
      match item.write
      case CipherKey(_) => KeyNoted(w1, CIPHER_SET);
      case AuthenticationKey(_) => KeyNoted(w1, AUTHENTICATION_SET);
      case _ =>
    }
  }

  lemma KeyNoted(w: World, f: Field)
    requires f == CIPHER_SET || f == AUTHENTICATION_SET
    ensures var w' := Get(w, f);
            && OnlyRead(w, w') && w'.cache.attributes == w.cache.attributes && w'.cache.stopped == w.cache.stopped
            && (Heard(w.node) ==> Heard(w'.node) && w'.cache == Copied(w.cache, w.node, f))
  {}

  lemma WrittenParts(s: Settings, w: Write)
    ensures Written(s, w).attributes == WrittenAttributes(s.attributes, w)
    ensures w.CipherKey? || w.AuthenticationKey? || w.AppConfigData? ==>
              WrittenAttributes(s.attributes, w) == s.attributes
    ensures Written(s, w).cipherKey == if w.CipherKey? then Some(w.key) else s.cipherKey
    ensures Written(s, w).authenticationKey == if w.AuthenticationKey? then Some(w.key) else s.authenticationKey
  {}

  lemma {:induction false} DoAllKeeps(w: World, items: seq<Item>)
    ensures var w' := DoAll(w, items);
            && w'.node.running == w.node.running
            && w.node.log <= w'.node.log
            && (forall e :: e in Added(w, w') ==>
                  e.Got? || (e.Wrote? && e.running == w.node.running && Change(e.write) in items))
            && (w'.res == OK <==> w.res == OK && TooLarge !in items && NothingFailed(Added(w, w')))
            && (Heard(w.node) ==> Heard(w'.node))
    decreases |items|
  {
    hide Do, Written, Heard, NothingFailed;
    if items == [] {
      assert NothingFailed([]) by { QuietFailsNothing([]); }
    } else {
      var w1 := Do(w, items[0]);
      DoKeeps(w, items[0]);
      DoAllKeeps(w1, items[1..]);
      var w' := DoAll(w, items);
      AddedTwice(w, w1, w');
      BothFail(Added(w, w1), Added(w1, w'));
      assert TooLarge in items <==> items[0] == TooLarge || TooLarge in items[1..];
    }
  }

  lemma QuietFailsNothing(log: seq<Entry>)
    requires AllQuiet(log)
    ensures NothingFailed(log)
  {}

  /** None of the changes to come is made without being heard of. */
  ghost predicate NoneUnheard(n: Node) {
    Unheard !in n.outcomes
  }

  lemma AskedStaysHeard(n: Node, e: Entry)
    requires NoneUnheard(n)
    ensures NoneUnheard(n.Asked(e)) && NoneUnheard(n.Looked(e)) && !n.Next().Unheard?
  {}

  lemma GetHears(w: World, f: Field)
    ensures NoneUnheard(w.node) ==> NoneUnheard(Get(w, f).node)
  {}

  lemma {:induction false} GetAllHears(w: World, fs: seq<Field>)
    requires NoneUnheard(w.node)
    ensures NoneUnheard(GetAll(w, fs).node)
    decreases |fs|
  {
    hide Get, NoneUnheard;
    if fs != [] {
      GetHears(w, fs[0]);
      GetAllHears(Get(w, fs[0]), fs[1..]);
    }
  }

  lemma DoHears(w: World, item: Item)
    requires NoneUnheard(w.node)
    ensures NoneUnheard(Do(w, item).node) && !w.node.Next().Unheard?
  {
    hide Get, NoneUnheard, Written, WrittenAttributes;
    if item.Change? {
      var w1 := w.(node := w.node.Set(item.write));
      SetHears(w.node, item.write);
      GetHears(w1, CIPHER_SET);
      GetHears(w1, AUTHENTICATION_SET);
      SameOutcomes(Noted(w1, item.write).node, Do(w, item).node);
    } else {
      SetHears(w.node, Role(0));
    }
  }

  lemma SetHears(n: Node, write: Write)
    requires NoneUnheard(n)
    ensures NoneUnheard(n.Set(write)) && !n.Next().Unheard?
  {
    hide Written;
  }

  lemma SameOutcomes(n: Node, n': Node)
    ensures n.outcomes == n'.outcomes && NoneUnheard(n) ==> NoneUnheard(n')
  {}

  lemma {:induction false} DoAllKeepsAgreement(w: World, items: seq<Item>)
    requires NoneUnheard(w.node)
    ensures NoneUnheard(DoAll(w, items).node)
    ensures AttributesAgree(w) ==> AttributesAgree(DoAll(w, items))
    ensures InTouch(w) ==> InTouch(DoAll(w, items))
    decreases |items|
  {
    hide Do, AttributesAgree, InTouch, NoneUnheard;
    if items != [] {
      DoHears(w, items[0]);
      DoKeepsAgreement(w, items[0]);
      DoAllKeepsAgreement(Do(w, items[0]), items[1..]);
    }
  }

  // ------------------------------------------------------- stopping, starting

  /** A stop that was tried of a running node, and what became of it. */
  ghost predicate StopTried(w: World, w': World, o: Outcome) {
    && w.node.log <= w'.node.log
    && (forall e :: e in Added(w, w') ==> Quiet(e) || e == Stop(true, o)) && Stop(true, o) in Added(w, w')
    && w'.node.running == !o.Done() && w'.res == (if o.Refused? then INVALID_VALUE else w.res)
    && w'.cache == (if o.Refused? then w.cache else w.cache.(stopped := true))
    && w'.node.settings == w.node.settings && Heard(w'.node)
    && w'.changed == (w.changed || !o.Refused?)
  }

  lemma DoStopKeeps(w: World) returns (o: Outcome)
    requires w.node.running && Heard(w.node)
    ensures StopTried(w, DoStop(w), o)
    ensures NoneUnheard(w.node) ==> NoneUnheard(DoStop(w).node) && !o.Unheard?
  {
    hide Added, Heard, NoneUnheard;
    var w1 := w.(node := w.node.SetAutostart(false));
    AutostartHears(w.node, false);
    o := w1.node.Next();
    var w2 := w1.(node := w1.node.(running := !o.Done()).Asked(Stop(true, o)));
    StopHears(w1.node, !o.Done());
    AddedOne(w, w1, Autostart(false, w.node.Next()));
    AddedOne(w1, w2, Stop(true, o));
    AddedTwice(w, w1, w2);
    var w3 := DoStop(w);
    if o.Refused? {
      SameLog(w, w2, w3);
      StaysHeard(w2.node, w3.node);
      SameOutcomes(w2.node, w3.node);
    } else {
      PollHears(w2.node, o.Done());
      AddedOne(w2, w3, Polled(w2.node.Readable(), o.Done()));
      AddedTwice(w, w2, w3);
      StaysHeard(w2.node.Poll(o.Done()), w3.node);
      SameOutcomes(w2.node.Poll(o.Done()), w3.node);
    }
    assert Stop(true, o) in [Stop(true, o)];
  }

  lemma StopHears(n: Node, running: bool)
    ensures var n' := n.(running := running).Asked(Stop(n.running, n.Next()));
            (Heard(n) ==> Heard(n')) && (NoneUnheard(n) ==> NoneUnheard(n') && !n.Next().Unheard?)
  {}

  lemma PollHears(n: Node, right: bool)
    ensures Heard(n) ==> Heard(n.Poll(right)) && n.Readable()
    ensures NoneUnheard(n) ==> NoneUnheard(n.Poll(right))
  {}

  lemma AutostartHears(n: Node, on: bool)
    ensures Heard(n) ==> Heard(n.SetAutostart(on))
    ensures NoneUnheard(n) ==> NoneUnheard(n.SetAutostart(on))
  {}

  lemma DoStopKeepsAttributes(w: World)
    ensures AttributesAgree(w) ==> AttributesAgree(DoStop(w))
    ensures NoneUnheard(w.node) ==> NoneUnheard(DoStop(w).node)
  {}

  /** A start that was tried, and what became of it. */
  ghost predicate StartTried(w: World, w': World, o: Outcome) {
    && w.node.log <= w'.node.log
    && (forall e :: e in Added(w, w') ==> Quiet(e) || e == Start(w.node.running, o))
    && Start(w.node.running, o) in Added(w, w')
    && w'.node.running == (w.node.running || o.Done())
    && w'.node.settings == w.node.settings
  }

  lemma StartStackKeeps(w: World) returns (o: Outcome)
    ensures o == w.node.Next()
    ensures var (w', res) := StartStack(w);
            && (AttributesAgree(w) ==> AttributesAgree(w'))
            && w'.node.settings == w.node.settings && w'.res == w.res && w'.changed == w.changed
            && StartTried(w, w', o)
            && (Heard(w.node) ==> Heard(w'.node) && (res == OK <==> o.Accepted? && !w.node.running))
            && (Heard(w.node) && res == OK ==> Agree(w'))
            && (res != OK ==> w'.cache == w.cache || !Heard(w.node))
            && (NoneUnheard(w.node) ==> NoneUnheard(w'.node))
  {
    hide Refresh, Added, OnlyRead, Heard, NoneUnheard;
    o := w.node.Next();
    var (n, res) := w.node.StartRequest();
    var w1 := w.(node := n);
    var started := Start(w.node.running, o);
    AddedOne(w, w1, started);
    assert started in [started];
    StartHears(w.node);
    if res == OK {
      var w2, w3 := Refresh(w1), StartStack(w).0;
      StartedReads(w1);
      AddedTwice(w, w1, w2);
      AddedOne(w2, w3, Polled(w2.node.Readable(), w2.node.running));
      AddedTwice(w, w2, w3);
      PollHears(w2.node, w2.node.running);
    } else {
      SameLog(w, w1, StartStack(w).0);
    }
  }

  lemma StartHears(n: Node)
    ensures var n' := n.StartRequest().0;
            (Heard(n) ==> Heard(n')) && (NoneUnheard(n) ==> NoneUnheard(n'))
  {}

  lemma StartedReads(w1: World)
    ensures var w2 := Refresh(w1);
            && w2.node == w1.node.(unreadable := w2.node.unreadable, log := w2.node.log)
            && w2.res == w1.res && w2.changed == w1.changed
            && w1.node.log <= w2.node.log && AllQuiet(Added(w1, w2))
            && (AttributesAgree(w1) ==> AttributesAgree(w2))
            && (Heard(w1.node) ==> InTouch(w2))
            && (NoneUnheard(w1.node) ==> NoneUnheard(w2.node))
  {
    hide Refresh, Heard, NoneUnheard;
    RefreshIsGetAll(w1);
    GetAllKeeps(w1, ALL_FIELDS);
    if Heard(w1.node) { RefreshRestores(w1); }
    if NoneUnheard(w1.node) { GetAllHears(w1, ALL_FIELDS); }
  }

  lemma RefreshIsGetAll(w: World)
    ensures Refresh(w) == GetAll(w, ALL_FIELDS)
  {}

  lemma DoStartKeeps(w: World) returns (o: Outcome)
    ensures o == w.node.Next()
    ensures AttributesAgree(w) ==> AttributesAgree(DoStart(w))
    ensures NoneUnheard(w.node) ==> NoneUnheard(DoStart(w).node) && !o.Unheard?
    ensures StartTried(w, DoStart(w), o)
    ensures Heard(w.node) ==> Heard(DoStart(w).node)
    ensures Heard(w.node) ==> (DoStart(w).res == OK <==> w.res == OK && o.Accepted? && !w.node.running)
    ensures Heard(w.node) && o.Accepted? && !w.node.running ==> Agree(DoStart(w))
    ensures Heard(w.node) && !(o.Accepted? && !w.node.running) ==> DoStart(w).cache == w.cache
    ensures DoStart(w).changed == w.changed
  {
    hide StartStack, Heard;
    o := StartStackKeeps(w);
    var (w1, res) := StartStack(w);
    AddedTwice(w, w1, DoStart(w));
    if res == OK { AutostartHears(w1.node, true); }
    StaysHeard(w1.node, DoStart(w).node);
  }

  // ----------------------------------------------------------- the main results

  function Begin(c: Cache, n: Node): World {
    World(c, n, OK, false)
  }

  /** Whichever reads fail, and whatever is refused or lost on its way: unless a
      change is made and not heard of, the cached attributes stay those of the node. */
  lemma AttributesStayEqual(c: Cache, n: Node, cfg: Config)
    requires AttributesAgree(Begin(c, n)) && NoneUnheard(n)
    ensures AttributesAgree(Handle(c, n, cfg))
  {
    hide Get, DoStop, DoAll, DoStart, Refresh, Items, NoneUnheard, Heard;
    var w0 := Get(Begin(c, n), STATUS);
    GetKeeps(Begin(c, n), STATUS);
    GetHears(Begin(c, n), STATUS);
    var stopped := w0.cache.stopped;
    var w1 := w0.(changed := StateChange(stopped, cfg));
    var w2 := if StopStack(stopped, cfg) then DoStop(w1) else w1;
    if StopStack(stopped, cfg) { DoStopKeepsAttributes(w1); }
    var w3 := DoAll(w2, Items(w2.cache.attributes, cfg));
    DoAllKeepsAgreement(w2, Items(w2.cache.attributes, cfg));
    var w4 := if RestartStack(stopped, cfg) then DoStart(w3) else w3;
    var o := DoStartKeeps(w3);
    GetAllKeeps(w4, ALL_FIELDS);
    RefreshIsGetAll(w4);
  }

  /** Every read but perhaps the first is answered. */
  ghost predicate HeardAfterFirst(n: Node) {
    forall i :: 1 <= i < |n.unreadable| ==> !n.unreadable[i]
  }

  lemma FirstRead(w: World)
    requires HeardAfterFirst(w.node)
    ensures var w0 := Get(w, STATUS);
            && Heard(w0.node) && OnlyRead(w, w0) && AllQuiet(w0.node.log[|w.node.log|..])
            && (Agree(w) ==> w0.cache == w.cache)
  {}

  /** The stages of a request to a node whose state is known: before stopping,
      before writing, after writing, after a start. */
  ghost predicate Staged(c: Cache, n: Node, cfg: Config, w1: World, w2: World, w3: World, w4: World) {
    && w1.res == OK && w1.node.running == n.running && w1.node.settings == n.settings && n.log <= w1.node.log
    && w1.cache == c && w1.changed == StateChange(!n.running, cfg) && w1.node.outcomes == n.outcomes
    && w2 == (if StopStack(!n.running, cfg) then DoStop(w1) else w1)
    && w3 == DoAll(w2, Items(n.settings.attributes, cfg))
    && w4 == (if RestartStack(!n.running, cfg) then DoStart(w3) else w3)
    && Handle(c, n, cfg) == (if w4.changed then Refresh(w4) else w4)
  }

  lemma HandleInStages(c: Cache, n: Node, cfg: Config)
    requires Agree(Begin(c, n)) && HeardAfterFirst(n)
    ensures var w1 := Get(Begin(c, n), STATUS).(changed := StateChange(!n.running, cfg));
            var w2 := if StopStack(!n.running, cfg) then DoStop(w1) else w1;
            var w3 := DoAll(w2, Items(w2.cache.attributes, cfg));
            var w4 := if RestartStack(!n.running, cfg) then DoStart(w3) else w3;
            && w1.cache == c && Handle(c, n, cfg) == (if w4.changed then Refresh(w4) else w4)
  {
    hide Get, DoStop, DoAll, DoStart, Refresh, Items, StopStack, RestartStack, StateChange, HeardAfterFirst, OnlyRead,
      Heard;
    FirstRead(Begin(c, n));
  }

  lemma FirstStage(c: Cache, n: Node, cfg: Config) returns (w1: World)
    requires Agree(Begin(c, n)) && HeardAfterFirst(n)
    ensures w1 == Get(Begin(c, n), STATUS).(changed := StateChange(!n.running, cfg))
    ensures w1.res == OK && w1.node.running == n.running && w1.node.settings == n.settings && n.log <= w1.node.log
    ensures w1.cache == c && c.attributes == n.settings.attributes && w1.node.outcomes == n.outcomes
    ensures Heard(w1.node) && AllQuiet(w1.node.log[|n.log|..])
  {
    hide Get, StateChange, HeardAfterFirst, Heard, AllQuiet;
    var w0 := Get(Begin(c, n), STATUS);
    FirstRead(Begin(c, n));
    w1 := w0.(changed := StateChange(!n.running, cfg));
    StaysHeard(w0.node, w1.node);
  }

  lemma Stages(c: Cache, n: Node, cfg: Config) returns (w1: World, w2: World, w3: World, w4: World)
    requires Agree(Begin(c, n)) && HeardAfterFirst(n)
    ensures Staged(c, n, cfg, w1, w2, w3, w4)
    ensures Heard(w1.node) && Heard(w2.node) && Heard(w3.node) && Heard(w4.node)
    ensures w2.cache.attributes == n.settings.attributes
    ensures w2.node.settings == n.settings && w4.node.settings == w3.node.settings
    ensures AllQuiet(w1.node.log[|n.log|..])
    ensures OnlyRead(w4, Handle(c, n, cfg))
  {
    hide Handle, Get, DoStop, DoAll, DoStart, Refresh, Items, Added, StartTried, StopTried, Heard, AllQuiet,
      StopStack, RestartStack, StateChange, HeardAfterFirst, OnlyRead, Agree;
    HandleInStages(c, n, cfg);
    w1 := FirstStage(c, n, cfg);
    w2 := if StopStack(!n.running, cfg) then DoStop(w1) else w1;
    if StopStack(!n.running, cfg) {
      OnlyRunningStops(n.running, cfg);
      var o := DoStopKeeps(w1);
      StopEnds(w1, w2, o);
    }
    w3 := DoAll(w2, Items(w2.cache.attributes, cfg));
    DoAllKeeps(w2, Items(w2.cache.attributes, cfg));
    w4 := if RestartStack(!n.running, cfg) then DoStart(w3) else w3;
    if RestartStack(!n.running, cfg) {
      var o := DoStartKeeps(w3);
      StartEnds(w3, w4, o);
    }
    NothingRead(w4);
    GetAllKeeps(w4, ALL_FIELDS);
    RefreshIsGetAll(w4);
  }

  lemma ItemsInRange(a: Attributes, cfg: Config)
    requires a.networkAddress <= UINT32_MAX && a.networkChannel <= UINT8_MAX
    ensures TooLarge in Items(a, cfg) <==> !cfg.InRange()
  {
    var items := Items(a, cfg);
    assert items[2] == NetworkAddressItem(a, cfg) && items[3] == NetworkChannelItem(a, cfg);
    assert items[4] == AppConfigItem(cfg) && items[7] == AcRangeItem(a, cfg);
  }

  lemma StoppedOnlyNeedsStop(a: Attributes, cfg: Config, w: Write)
    requires Change(w) in Items(a, cfg) && w.StoppedOnly()
    ensures cfg.NeedsStop()
  {}

  lemma FailedSince(w: World, w': World)
    requires w.node.log <= w'.node.log
    ensures NothingFailed(w'.node.log) <==> NothingFailed(w.node.log) && NothingFailed(Added(w, w'))
  {
    hide Failed;
    assert w'.node.log == w.node.log + Added(w, w');
    assert forall e :: e in w'.node.log <==> e in w.node.log || e in Added(w, w');
  }

  lemma ReadsFailNothing(w: World, w': World)
    requires OnlyRead(w, w')
    ensures NothingFailed(w'.node.log) <==> NothingFailed(w.node.log)
  {
    FailedSince(w, w');
  }

  lemma StopCounts(w: World, w': World, o: Outcome)
    requires StopTried(w, w', o)
    ensures NothingFailed(w'.node.log) <==> NothingFailed(w.node.log) && !o.Refused?
    ensures w'.res == (if o.Refused? then INVALID_VALUE else w.res)
  {
    FailedSince(w, w');
  }

  lemma StartCounts(w: World, w': World, o: Outcome)
    requires StartTried(w, w', o)
    ensures NothingFailed(w'.node.log) <==> NothingFailed(w.node.log) && o.Accepted? && !w.node.running
  {
    FailedSince(w, w');
  }

  /** The answer is OK exactly when nothing that was tried failed and no value was
      out of range.  Setting the autostart flag does not count, its result is not
      looked at, and neither does a stop whose confirm is lost. */
  lemma OkIffNothingFailed(c: Cache, n: Node, cfg: Config)
    requires Agree(Begin(c, n)) && HeardAfterFirst(n) && n.log == []
    requires n.settings.attributes.networkAddress <= UINT32_MAX && n.settings.attributes.networkChannel <= UINT8_MAX
    ensures var w := Handle(c, n, cfg);
            w.res == OK <==> cfg.InRange() && NothingFailed(w.node.log)
  {
    hide Handle, DoStop, DoAll, DoStart, Items, NothingFailed, AllQuiet, Added, StopTried, StartTried, Heard, Agree,
      HeardAfterFirst;
    var w1, w2, w3, w4 := Stages(c, n, cfg);
    assert w1.node.log[|n.log|..] == w1.node.log;
    QuietFailsNothing(w1.node.log);
    if StopStack(!n.running, cfg) {
      OnlyRunningStops(n.running, cfg);
      var o := DoStopKeeps(w1);
      StopCounts(w1, w2, o);
    }
    ItemsInRange(n.settings.attributes, cfg);
    DoAllKeeps(w2, Items(n.settings.attributes, cfg));
    FailedSince(w2, w3);
    if RestartStack(!n.running, cfg) {
      var o := DoStartKeeps(w3);
      StartCounts(w3, w4, o);
    }
    ReadsFailNothing(w4, Handle(c, n, cfg));
  }

  lemma OnlyRunningStops(running: bool, cfg: Config)
    requires StopStack(!running, cfg)
    ensures running
  {}

  // ------------------------------------------------------------- the overlay

  function Or<T>(x: Option<T>, fallback: T): T {
    if x.Some? then x.value else fallback
  }

  /** The settings with everything requested put over them. */
  function Overlay(s: Settings, cfg: Config): Settings {
    Settings(
      Attributes(
        Or(cfg.role, s.attributes.role),
        Or(cfg.nodeAddress, s.attributes.nodeAddress),
        Or(cfg.networkAddress, s.attributes.networkAddress),
        Or(cfg.networkChannel, s.attributes.networkChannel),
        if cfg.acRange.Some? then cfg.acRange.value.min else s.attributes.acRangeMin,
        if cfg.acRange.Some? then cfg.acRange.value.max else s.attributes.acRangeMax),
      if cfg.keys.Some? then Some(cfg.keys.value.cipher) else s.cipherKey,
      if cfg.keys.Some? then Some(cfg.keys.value.authentication) else s.authenticationKey,
      Or(cfg.appConfig, s.appConfig))
  }

  /** Writing that succeeds throughout leaves the overlay. */
  lemma WrittenIsOverlay(w: World, cfg: Config)
    requires AttributesAgree(w) && DoAll(w, Items(w.cache.attributes, cfg)).res == OK
    ensures w.res == OK && DoAll(w, Items(w.cache.attributes, cfg)).node.settings == Overlay(w.node.settings, cfg)
  {
    hide Do, DoAll, Items, AttributesAgree, RoleItem, NodeAddressItem, NetworkAddressItem, NetworkChannelItem,
      AppConfigItem, CipherItem, AuthenticationItem, AcRangeItem, Overlay;
    DoAllInTurn(w, cfg);
    var w1 := Do(w, RoleItem(w.cache.attributes, cfg));
    var w2 := Do(w1, NodeAddressItem(w1.cache.attributes, cfg));
    var w3 := Do(w2, NetworkAddressItem(w2.cache.attributes, cfg));
    var w4 := Do(w3, NetworkChannelItem(w3.cache.attributes, cfg));
    var w5 := Do(w4, AppConfigItem(cfg));
    var w6 := Do(w5, CipherItem(cfg));
    var w7 := Do(w6, AuthenticationItem(cfg));
    var w8 := Do(w7, AcRangeItem(w7.cache.attributes, cfg));
    RoleWritten(w, cfg);
    NodeAddressWritten(w1, cfg);
    NetworkAddressWritten(w2, cfg);
    NetworkChannelWritten(w3, cfg);
    AppConfigWritten(w4, cfg);
    CipherWritten(w5, cfg);
    AuthenticationWritten(w6, cfg);
    AcRangeWritten(w7, cfg);
    OverlayInTurn(w.node.settings, cfg);
  }

  function WithRole(s: Settings, cfg: Config): Settings {
    s.(attributes := s.attributes.(role := Or(cfg.role, s.attributes.role)))
  }

  function WithNodeAddress(s: Settings, cfg: Config): Settings {
    s.(attributes := s.attributes.(nodeAddress := Or(cfg.nodeAddress, s.attributes.nodeAddress)))
  }

  function WithNetworkAddress(s: Settings, cfg: Config): Settings {
    s.(attributes := s.attributes.(networkAddress := Or(cfg.networkAddress, s.attributes.networkAddress)))
  }

  function WithNetworkChannel(s: Settings, cfg: Config): Settings {
    s.(attributes := s.attributes.(networkChannel := Or(cfg.networkChannel, s.attributes.networkChannel)))
  }

  function WithAppConfig(s: Settings, cfg: Config): Settings {
    s.(appConfig := Or(cfg.appConfig, s.appConfig))
  }

  function WithCipher(s: Settings, cfg: Config): Settings {
    if cfg.keys.Some? then s.(cipherKey := Some(cfg.keys.value.cipher)) else s
  }

  function WithAuthentication(s: Settings, cfg: Config): Settings {
    if cfg.keys.Some? then s.(authenticationKey := Some(cfg.keys.value.authentication)) else s
  }

  function WithAcRange(s: Settings, cfg: Config): Settings {
    if cfg.acRange.Some? then
      s.(attributes := s.attributes.(acRangeMin := cfg.acRange.value.min, acRangeMax := cfg.acRange.value.max))
    else s
  }

  lemma OverlayInTurn(s: Settings, cfg: Config)
    ensures WithAcRange(WithAuthentication(WithCipher(WithAppConfig(WithNetworkChannel(WithNetworkAddress(
              WithNodeAddress(WithRole(s, cfg), cfg), cfg), cfg), cfg), cfg), cfg), cfg)
            == Overlay(s, cfg)
  {}

  lemma RoleWritten(w: World, cfg: Config)
    requires w.res == OK ==> AttributesAgree(w)
    ensures var w' := Do(w, RoleItem(w.cache.attributes, cfg));
            w'.res == OK ==>
              w.res == OK && AttributesAgree(w') && w'.node.settings == WithRole(w.node.settings, cfg)
  {}

  lemma NodeAddressWritten(w: World, cfg: Config)
    requires w.res == OK ==> AttributesAgree(w)
    ensures var w' := Do(w, NodeAddressItem(w.cache.attributes, cfg));
            w'.res == OK ==>
              w.res == OK && AttributesAgree(w') && w'.node.settings == WithNodeAddress(w.node.settings, cfg)
  {}

  lemma NetworkAddressWritten(w: World, cfg: Config)
    requires w.res == OK ==> AttributesAgree(w)
    ensures var w' := Do(w, NetworkAddressItem(w.cache.attributes, cfg));
            w'.res == OK ==>
              w.res == OK && AttributesAgree(w') && w'.node.settings == WithNetworkAddress(w.node.settings, cfg)
  {}

  lemma NetworkChannelWritten(w: World, cfg: Config)
    requires w.res == OK ==> AttributesAgree(w)
    ensures var w' := Do(w, NetworkChannelItem(w.cache.attributes, cfg));
            w'.res == OK ==>
              w.res == OK && AttributesAgree(w') && w'.node.settings == WithNetworkChannel(w.node.settings, cfg)
  {}

  lemma AppConfigWritten(w: World, cfg: Config)
    requires w.res == OK ==> AttributesAgree(w)
    ensures var w' := Do(w, AppConfigItem(cfg));
            w'.res == OK ==>
              w.res == OK && AttributesAgree(w') && w'.node.settings == WithAppConfig(w.node.settings, cfg)
  {}

  lemma CipherWritten(w: World, cfg: Config)
    requires w.res == OK ==> AttributesAgree(w)
    ensures var w' := Do(w, CipherItem(cfg));
            w'.res == OK ==>
              w.res == OK && AttributesAgree(w') && w'.node.settings == WithCipher(w.node.settings, cfg)
  {}

  lemma AuthenticationWritten(w: World, cfg: Config)
    requires w.res == OK ==> AttributesAgree(w)
    ensures var w' := Do(w, AuthenticationItem(cfg));
            w'.res == OK ==>
              w.res == OK && AttributesAgree(w') && w'.node.settings == WithAuthentication(w.node.settings, cfg)
  {}

  lemma AcRangeWritten(w: World, cfg: Config)
    requires w.res == OK ==> AttributesAgree(w)
    ensures var w' := Do(w, AcRangeItem(w.cache.attributes, cfg));
            w'.res == OK ==>
              w.res == OK && AttributesAgree(w') && w'.node.settings == WithAcRange(w.node.settings, cfg)
  {}

  lemma StopsSince(w: World, w': World)
    requires w.node.log <= w'.node.log && forall e :: e in Added(w, w') ==> !e.Stop?
    ensures forall e: Entry :: e.Stop? ==> (e in w'.node.log <==> e in w.node.log)
  {
    assert w'.node.log == w.node.log + Added(w, w');
  }

  lemma QuietStopsNothing(log: seq<Entry>, e: Entry)
    requires AllQuiet(log) && e.Stop?
    ensures e !in log
  {}

  lemma StopIsLogged(w: World, w': World, o: Outcome)
    requires StopTried(w, w', o)
    ensures forall e: Entry :: e.Stop? ==> (e in w'.node.log <==> e in w.node.log || e == Stop(true, o))
    ensures forall e :: e in w'.node.log && e.Wrote? ==> e in w.node.log
    ensures w'.node.running == !o.Done() && w'.res == (if o.Refused? then INVALID_VALUE else w.res)
  {
    assert w'.node.log == w.node.log + Added(w, w');
  }

  lemma StartIsLogged(w: World, w': World, o: Outcome)
    requires StartTried(w, w', o)
    ensures forall e: Entry :: e.Stop? ==> (e in w'.node.log <==> e in w.node.log)
    ensures forall e :: e in w'.node.log && e.Wrote? ==> e in w.node.log
  {
    assert w'.node.log == w.node.log + Added(w, w');
  }

  lemma ReadsAreLogged(w: World, w': World)
    requires OnlyRead(w, w')
    ensures forall e: Entry :: e.Stop? ==> (e in w'.node.log <==> e in w.node.log)
    ensures forall e :: e in w'.node.log && e.Wrote? ==> e in w.node.log
  {
    assert w'.node.log == w.node.log + Added(w, w');
  }

  /** Which stops are logged: the one that was tried, with what became of it. */
  lemma StopsOfRequest(running: bool, items: seq<Item>, cfg: Config, w1: World, w2: World, w3: World, w4: World,
                       w: World)
    returns (o: Outcome)
    requires AllQuiet(w1.node.log) && Heard(w1.node) && w1.node.running == running
    requires w2 == if StopStack(!running, cfg) then DoStop(w1) else w1
    requires w3 == DoAll(w2, items)
    requires w4 == if RestartStack(!running, cfg) then DoStart(w3) else w3
    requires OnlyRead(w4, w)
    ensures StopStack(!running, cfg) ==> running && StopTried(w1, w2, o)
    ensures forall e: Entry :: e.Stop? ==> (e in w.node.log <==> StopStack(!running, cfg) && e == Stop(true, o))
    ensures w2.node.log <= w3.node.log
    ensures forall e :: e in w.node.log && e.Wrote? ==> e in Added(w2, w3)
  {
    hide DoStop, DoAll, DoStart, Added, StopTried, StartTried, Heard, OnlyRead, StopStack, RestartStack;
    o := Accepted;
    if StopStack(!running, cfg) {
      OnlyRunningStops(running, cfg);
      o := DoStopKeeps(w1);
      StopIsLogged(w1, w2, o);
    }
    DoAllKeeps(w2, items);
    StopsSince(w2, w3);
    if RestartStack(!running, cfg) {
      var o' := DoStartKeeps(w3);
      StartIsLogged(w3, w4, o');
    }
    ReadsAreLogged(w4, w);
    WritesSince(w2, w3);
  }

  lemma WritesSince(w: World, w': World)
    requires w.node.log <= w'.node.log
    ensures forall e :: e in w'.node.log ==> e in w.node.log || e in Added(w, w')
  {
    assert w'.node.log == w.node.log + Added(w, w');
  }

  /** A request that succeeds leaves the node with the requested overlay, and the
      stack on exactly when that was requested or, nothing being requested, it was
      on before - if and only if no stop request was lost. */
  lemma OverlayIsHeld(c: Cache, n: Node, cfg: Config)
    requires Agree(Begin(c, n)) && HeardAfterFirst(n) && n.log == [] && Handle(c, n, cfg).res == OK
    ensures var w := Handle(c, n, cfg);
            && w.node.settings == Overlay(n.settings, cfg)
            && (w.node.running == Or(cfg.sinkOn, n.running) <==> Stop(true, Lost) !in w.node.log)
  {
    hide Handle, DoStop, DoAll, DoStart, Items, Heard, Overlay, Added, StopTried, StartTried, NothingFailed,
      HeardAfterFirst, AllQuiet;
    var w1, w2, w3, w4 := Stages(c, n, cfg);
    assert w1.node.log[|n.log|..] == w1.node.log;
    var o := StopsOfRequest(n.running, Items(n.settings.attributes, cfg), cfg, w1, w2, w3, w4, Handle(c, n, cfg));
    DoAllKeeps(w2, Items(n.settings.attributes, cfg));
    if RestartStack(!n.running, cfg) {
      var o' := DoStartKeeps(w3);
      StartEnds(w3, w4, o');
    }
    if StopStack(!n.running, cfg) { StopEnds(w1, w2, o); }
    WrittenIsOverlay(w2, cfg);
    assert StopStack(!n.running, cfg) && o.Lost? <==> Stop(true, Lost) in Handle(c, n, cfg).node.log;
  }

  lemma StopEnds(w: World, w': World, o: Outcome)
    requires StopTried(w, w', o)
    ensures w'.res == (if o.Refused? then INVALID_VALUE else w.res) && w'.node.running == !o.Done()
    ensures w'.changed == (w.changed || !o.Refused?)
    ensures w'.cache == if o.Refused? then w.cache else w.cache.(stopped := true)
    ensures w'.node.settings == w.node.settings && Heard(w'.node)
  {
    hide Heard;
  }

  lemma StartEnds(w: World, w': World, o: Outcome)
    requires StartTried(w, w', o)
    ensures w'.node.running == (w.node.running || o.Done()) && w'.node.settings == w.node.settings
  {}

  /** Unless a stop was refused or lost, attributes that need the stack stopped were
      only written while it was. */
  lemma WrittenOnlyWhileStopped(c: Cache, n: Node, cfg: Config, e: Entry)
    requires Agree(Begin(c, n)) && HeardAfterFirst(n) && n.log == []
    requires Stop(true, Refused) !in Handle(c, n, cfg).node.log && Stop(true, Lost) !in Handle(c, n, cfg).node.log
    requires e in Handle(c, n, cfg).node.log && e.Wrote? && e.write.StoppedOnly()
    ensures !e.running
  {
    hide Handle, DoStop, DoAll, DoStart, Items, Heard, StopStack, StopTried, StartTried, NothingFailed,
      HeardAfterFirst, AllQuiet;
    var w1, w2, w3, w4 := Stages(c, n, cfg);
    assert w1.node.log[|n.log|..] == w1.node.log;
    WriteIsStopped(n.running, n.settings.attributes, cfg, w1, w2, w3, w4, Handle(c, n, cfg), e);
  }

  lemma WriteIsStopped(running: bool, a: Attributes, cfg: Config, w1: World, w2: World, w3: World, w4: World, w: World,
                       e: Entry)
    requires AllQuiet(w1.node.log) && Heard(w1.node) && w1.node.running == running
    requires w2 == if StopStack(!running, cfg) then DoStop(w1) else w1
    requires w3 == DoAll(w2, Items(a, cfg))
    requires w4 == if RestartStack(!running, cfg) then DoStart(w3) else w3
    requires OnlyRead(w4, w)
    requires Stop(true, Refused) !in w.node.log && Stop(true, Lost) !in w.node.log
    requires e in w.node.log && e.Wrote? && e.write.StoppedOnly()
    ensures !e.running
  {
    hide DoStop, DoAll, DoStart, Items, Heard, StopStack, RestartStack, StopTried, NothingFailed, AllQuiet, OnlyRead,
      Added;
    var o := StopsOfRequest(running, Items(a, cfg), cfg, w1, w2, w3, w4, w);
    DoAllKeeps(w2, Items(a, cfg));
    StoppedOnlyNeedsStop(a, cfg, e.write);
    NeedsStopStops(running, cfg);
    if running {
      StopEnds(w1, w2, o);
      assert Stop(true, o) in w.node.log;
    }
  }

  lemma NeedsStopStops(running: bool, cfg: Config)
    requires cfg.NeedsStop()
    ensures StopStack(!running, cfg) == running
  {}

  // ---------------------------------------------- a cache that was out of date

  lemma StopStaysHeard(w: World)
    requires Heard(w.node)
    ensures Heard(DoStop(w).node)
  {}

  /** A request that changed something ends with a cache that agrees with the node,
      even if it was out of date before, and whatever was lost on the way. */
  lemma ChangeRestoresAgreement(c: Cache, n: Node, cfg: Config)
    requires HeardAfterFirst(n)
    ensures Handle(c, n, cfg).changed ==> InTouch(Handle(c, n, cfg))
  {
    hide Get, DoStop, DoAll, DoStart, Refresh, Items, InTouch, Heard;
    var w0 := Get(Begin(c, n), STATUS);
    FirstRead(Begin(c, n));
    var stopped := w0.cache.stopped;
    var w1 := w0.(changed := StateChange(stopped, cfg));
    StopStaysHeard(w1);
    var w2 := if StopStack(stopped, cfg) then DoStop(w1) else w1;
    var w3 := DoAll(w2, Items(w2.cache.attributes, cfg));
    DoAllKeeps(w2, Items(w2.cache.attributes, cfg));
    var o := DoStartKeeps(w3);
    var w4 := if RestartStack(stopped, cfg) then DoStart(w3) else w3;
    RefreshRestores(w4);
    RefreshIsGetAll(w4);
    GetAllKeeps(w4, ALL_FIELDS);
  }

  /** For every request, whatever is refused and whichever requests are lost: a
      cache that agreed with the node still agrees, if every change that the node
      made was confirmed. */
  lemma CacheStaysInTouch(c: Cache, n: Node, cfg: Config)
    requires Agree(Begin(c, n)) && HeardAfterFirst(n) && NoneUnheard(n)
    ensures InTouch(Handle(c, n, cfg))
  {
    hide Handle, InTouch, Staged, OnlyRead, Heard, HeardAfterFirst, NoneUnheard, Agree;
    ChangeRestoresAgreement(c, n, cfg);
    if !Handle(c, n, cfg).changed { UnchangedStaysInTouch(c, n, cfg); }
  }

  lemma UnchangedStaysInTouch(c: Cache, n: Node, cfg: Config)
    requires Agree(Begin(c, n)) && HeardAfterFirst(n) && NoneUnheard(n) && !Handle(c, n, cfg).changed
    ensures InTouch(Handle(c, n, cfg))
  {
    hide Handle, DoStop, DoAll, DoStart, Refresh, Items, Heard, NoneUnheard, HeardAfterFirst, StopTried, StartTried;
    var w1, w2, w3, w4 := Stages(c, n, cfg);
    SameOutcomes(n, w1.node);
    if StopStack(!n.running, cfg) {
      OnlyRunningStops(n.running, cfg);
      var o := DoStopKeeps(w1);
      StopEnds(w1, w2, o);
    }
    DoAllKeepsAgreement(w2, Items(n.settings.attributes, cfg));
    DoAllKeeps(w2, Items(n.settings.attributes, cfg));
    DoAllChanges(w2, Items(n.settings.attributes, cfg));
    if RestartStack(!n.running, cfg) {
      var o := DoStartKeeps(w3);
      StartEnds(w3, w4, o);
    }
  }

  lemma {:induction false} DoAllChanges(w: World, items: seq<Item>)
    ensures w.changed ==> DoAll(w, items).changed
    decreases |items|
  {
    hide Do;
    if items != [] {
      DoChanges(w, items[0]);
      DoAllChanges(Do(w, items[0]), items[1..]);
    }
  }

  lemma DoChanges(w: World, item: Item)
    ensures w.changed ==> Do(w, item).changed
  {
    hide Get;
    if item.Change? { NotedReads(w.(node := w.node.Set(item.write)), item.write); }
  }
}
