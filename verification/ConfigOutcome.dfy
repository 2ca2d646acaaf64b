/** What a set-config request has done when it is over, whatever was refused, lost,
    out of range or unread on the way. */
module ConfigOutcome {
  import opened Common
  import opened AppResults
  import opened SinkNode
  import opened SetConfig
  import opened ConfigProperties

  // --------------------------------------------------- what the node was asked

  /** The log without the reads. */
  function Asks(log: seq<Entry>): seq<Entry> {
    if log == [] then []
    else
      var e := log[|log| - 1];
      Asks(log[..|log| - 1]) + if e.Got? || e.Polled? then [] else [e]
  }

  lemma AsksStep(log: seq<Entry>, e: Entry)
    ensures Asks(log + [e]) == Asks(log) + if e.Got? || e.Polled? then [] else [e]
  {
    assert (log + [e])[..|log|] == log;
  }

  /** The settings, and the on/off state, that the changes made so far lead to. */
  function Replay(s: Settings, asks: seq<Entry>): Settings {
    if asks == [] then s
    else
      var before, e := Replay(s, asks[..|asks| - 1]), asks[|asks| - 1];
      if e.Wrote? && e.outcome.Done() then Written(before, e.write) else before
  }

  function Power(running: bool, asks: seq<Entry>): bool {
    if asks == [] then running
    else
      var before, e := Power(running, asks[..|asks| - 1]), asks[|asks| - 1];
      if e.Stop? && e.outcome.Done() then false
      else if e.Start? && e.outcome.Done() then true
      else before
  }

  lemma ReplayStep(s: Settings, running: bool, asks: seq<Entry>, e: Entry)
    ensures Replay(s, asks + [e]) ==
            if e.Wrote? && e.outcome.Done() then Written(Replay(s, asks), e.write) else Replay(s, asks)
    ensures Power(running, asks + [e]) ==
            if e.Stop? && e.outcome.Done() then false
            else if e.Start? && e.outcome.Done() then true
            else Power(running, asks)
  {
    assert (asks + [e])[..|asks|] == asks;
  }

  /** The node is what the changes made of `from`. */
  ghost predicate Follows(n: Node, from: Node) {
    && n.settings == Replay(from.settings, Asks(n.log))
    && n.running == Power(from.running, Asks(n.log))
  }

  /** One more entry of the log, with what it does to the node. */
  lemma OneMoreAsk(n: Node, n': Node, e: Entry, from: Node)
    requires n'.log == n.log + [e]
    requires n'.settings == if e.Wrote? && e.outcome.Done() then Written(n.settings, e.write) else n.settings
    requires n'.running == if e.Stop? && e.outcome.Done() then false
                           else if e.Start? && e.outcome.Done() then true
                           else n.running
    ensures Asks(n'.log) == Asks(n.log) + if e.Got? || e.Polled? then [] else [e]
    ensures Follows(n, from) ==> Follows(n', from)
  {
    hide Written, Asks, Replay, Power;
    AsksStep(n.log, e);
    ReplayStep(from.settings, from.running, Asks(n.log), e);
    assert Asks(n.log) + [] == Asks(n.log);
  }

  /** `w'` comes after `w` and has asked for `asks` in between. */
  ghost predicate After(w: World, w': World, asks: seq<Entry>, from: Node) {
    && Asks(w'.node.log) == Asks(w.node.log) + asks
    && (Follows(w.node, from) ==> Follows(w'.node, from))
  }

  lemma NothingAsked(w: World, w': World, from: Node)
    requires w'.node == w.node
    ensures After(w, w', [], from)
  {}

  lemma AfterTwice(w: World, w1: World, w2: World, a: seq<Entry>, b: seq<Entry>, from: Node)
    requires After(w, w1, a, from) && After(w1, w2, b, from)
    ensures After(w, w2, a + b, from)
  {
    hide Follows, Asks;
  }

  lemma GetAsks(w: World, f: Field, from: Node)
    ensures After(w, Get(w, f), [], from)
  {
    hide Follows, Asks, Copied;
    OneMoreAsk(w.node, w.node.Read(f), Got(f, w.node.Readable()), from);
  }

  lemma {:induction false} GetAllAsks(w: World, fs: seq<Field>, from: Node)
    ensures After(w, GetAll(w, fs), [], from)
    decreases |fs|
  {
    hide Get, After;
    if fs == [] {
      NothingAsked(w, w, from);
    } else {
      GetAsks(w, fs[0], from);
      GetAllAsks(Get(w, fs[0]), fs[1..], from);
      AfterTwice(w, Get(w, fs[0]), GetAll(w, fs), [], [], from);
      var none: seq<Entry> := [];
      assert none + none == none;
    }
  }

  lemma NotedAsks(w: World, write: Write, from: Node)
    ensures After(w, Noted(w, write), [], from)
  {
    hide Get, After, WrittenAttributes;
    match write
    case CipherKey(_) => GetAsks(w, CIPHER_SET, from);
    case AuthenticationKey(_) => GetAsks(w, AUTHENTICATION_SET, from);
    case _ => NothingAsked(w, Noted(w, write), from);
  }

  /** Only the node matters. */
  lemma SameAfter(w: World, v: World, w': World, v': World, asks: seq<Entry>, from: Node)
    requires v.node == w.node
    ensures v'.node == w'.node && After(w, w', asks, from) ==> After(v, v', asks, from)
  {
    hide Follows, Asks;
  }

  function AskOf(w: World, item: Item): seq<Entry> {
    if item.Change? then [Wrote(item.write, w.node.running, w.node.Next())] else []
  }

  lemma DoAsks(w: World, item: Item, from: Node)
    ensures After(w, Do(w, item), AskOf(w, item), from) && Do(w, item).node.running == w.node.running
  {
    hide Get, After, Written, Noted;
    if item.Change? {
      var e := Wrote(item.write, w.node.running, w.node.Next());
      var w1 := w.(node := w.node.Set(item.write));
      SetAsks(w, item.write, from);
      NotedAsks(w1, item.write, from);
      NotedReads(w1, item.write);
      AfterTwice(w, w1, Noted(w1, item.write), [e], [], from);
      assert [e] + [] == [e];
      SameAfter(w, w, Noted(w1, item.write), Do(w, item), [e], from);
      SameAfter(w, w, w1, Do(w, item), [e], from);
    } else {
      NothingAsked(w, Do(w, item), from);
    }
  }

  lemma SetAsks(w: World, write: Write, from: Node)
    ensures After(w, w.(node := w.node.Set(write)), [Wrote(write, w.node.running, w.node.Next())], from)
  {
    hide Follows, Asks, Written;
    OneMoreAsk(w.node, w.node.Set(write), Wrote(write, w.node.running, w.node.Next()), from);
  }

  /** The writes among the items, in their order. */
  function Changes(items: seq<Item>): seq<Write> {
    if items == [] then [] else (if items[0].Change? then [items[0].write] else []) + Changes(items[1..])
  }

  /** Each of these writes was asked for, once and in this order. */
  ghost predicate AsksFor(asks: seq<Entry>, writes: seq<Write>, running: bool) {
    && |asks| == |writes|
    && forall i :: 0 <= i < |asks| ==> asks[i].Wrote? && asks[i].write == writes[i] && asks[i].running == running
  }

  lemma NoAsks(items: seq<Item>, running: bool)
    requires items == []
    ensures AsksFor([], Changes(items), running)
  {}

  lemma MoreAsks(w: World, items: seq<Item>, rest: seq<Entry>)
    requires items != [] && AsksFor(rest, Changes(items[1..]), w.node.running)
    ensures AsksFor(AskOf(w, items[0]) + rest, Changes(items), w.node.running)
  {
    var asks, writes := AskOf(w, items[0]) + rest, Changes(items);
    if items[0].Change? {
      assert |asks| == |rest| + 1 && asks[0] == AskOf(w, items[0])[0] && asks[1..] == rest;
      assert writes[0] == items[0].write && writes[1..] == Changes(items[1..]);
      forall i | 0 <= i < |asks|
        ensures asks[i].Wrote? && asks[i].write == writes[i] && asks[i].running == w.node.running
      {
        assert i > 0 ==> asks[i] == asks[1..][i - 1] && writes[i] == writes[1..][i - 1];
      }
    } else {
      assert asks == rest;
    }
  }

  lemma {:induction false} DoAllAsks(w: World, items: seq<Item>, from: Node) returns (asks: seq<Entry>)
    ensures After(w, DoAll(w, items), asks, from) && AsksFor(asks, Changes(items), w.node.running)
    ensures DoAll(w, items).node.running == w.node.running
    decreases |items|
  {
    hide Do, After, AskOf, Changes, AsksFor;
    if items == [] {
      asks := [];
      NothingAsked(w, w, from);
      NoAsks(items, w.node.running);
    } else {
      var w1 := Do(w, items[0]);
      DoAsks(w, items[0], from);
      var rest := DoAllAsks(w1, items[1..], from);
      asks := AskOf(w, items[0]) + rest;
      AfterTwice(w, w1, DoAll(w, items), AskOf(w, items[0]), rest, from);
      MoreAsks(w, items, rest);
    }
  }

  /** A stop: the autostart flag is cleared, and then the stop is asked for. */
  lemma DoStopAsks(w: World, from: Node) returns (asks: seq<Entry>)
    ensures After(w, DoStop(w), asks, from)
    ensures |asks| == 2 && asks[0] == Autostart(false, w.node.Next())
    ensures asks[1] == Stop(w.node.running, w.node.SetAutostart(false).Next())
  {
    hide Follows, Asks;
    var n := w.node.SetAutostart(false);
    OneMoreAsk(w.node, n, Autostart(false, w.node.Next()), from);
    var e := Stop(n.running, n.Next());
    var n1 := n.(running := n.running && !n.Next().Done()).Asked(e);
    OneMoreAsk(n, n1, e, from);
    OneMoreAsk(n1, n1.Poll(!n1.running), Polled(n1.Readable(), !n1.running), from);
    asks := [Autostart(false, w.node.Next()), e];
    Regroup(Asks(w.node.log), asks[0], asks[1]);
  }

  lemma Regroup(log: seq<Entry>, a: Entry, b: Entry)
    ensures log + [a] + [b] == log + [a, b] && log + [a] + [] == log + [a]
    ensures log + [a, b] + [] == log + [a, b]
  {}

  lemma StartStackAsks(w: World, from: Node)
    ensures After(w, StartStack(w).0, [Start(w.node.running, w.node.Next())], from)
    ensures StartStack(w).1 == OK ==> !w.node.running && w.node.Next().Accepted?
  {
    hide After, Refresh;
    var (n, res) := w.node.StartRequest();
    var w1 := w.(node := n);
    var e := Start(w.node.running, w.node.Next());
    StartAsks(w, from);
    if res == OK {
      var w2 := Refresh(w1);
      RefreshIsGetAll(w1);
      GetAllAsks(w1, ALL_FIELDS, from);
      AfterTwice(w, w1, w2, [e], [], from);
      Joined(e);
      PollAsks(w2, w2.node.running, from);
      AfterTwice(w, w2, StartStack(w).0, [e], [], from);
    } else {
      SameAfter(w, w, w1, StartStack(w).0, [e], from);
    }
  }

  /** A start: the request and, when it succeeded and a status could be read, the
      autostart flag. */
  lemma DoStartAsks(w: World, from: Node) returns (asks: seq<Entry>)
    ensures After(w, DoStart(w), asks, from)
    ensures 1 <= |asks| <= 2 && asks[0] == Start(w.node.running, w.node.Next())
    ensures |asks| == 2 ==> asks[1].Autostart? && asks[1].on && !w.node.running && w.node.Next().Accepted?
    ensures Heard(w.node) && !w.node.running && w.node.Next().Accepted? ==> |asks| == 2
  {
    hide After, StartStack, Heard;
    StartStackAsks(w, from);
    var o := StartStackKeeps(w);
    var (w1, res) := StartStack(w);
    asks := [Start(w.node.running, w.node.Next())];
    if res == OK {
      var e := Autostart(true, w1.node.Next());
      var w2 := w1.(node := w1.node.SetAutostart(true));
      AutostartAsks(w1, true, from);
      AfterTwice(w, w1, w2, asks, [e], from);
      asks := asks + [e];
      SameAfter(w, w, w2, DoStart(w), asks, from);
    } else {
      SameAfter(w, w, w1, DoStart(w), asks, from);
    }
  }

  lemma Joined(e: Entry)
    ensures [e] + [] == [e]
  {}

  lemma StartAsks(w: World, from: Node)
    ensures After(w, w.(node := w.node.StartRequest().0), [Start(w.node.running, w.node.Next())], from)
  {
    hide Follows, Asks;
    OneMoreAsk(w.node, w.node.StartRequest().0, Start(w.node.running, w.node.Next()), from);
  }

  lemma PollAsks(w: World, right: bool, from: Node)
    ensures After(w, w.(node := w.node.Poll(right)), [], from)
  {
    hide Follows, Asks;
    OneMoreAsk(w.node, w.node.Poll(right), Polled(w.node.Readable(), right), from);
  }

  lemma AutostartAsks(w: World, on: bool, from: Node)
    ensures After(w, w.(node := w.node.SetAutostart(on)), [Autostart(on, w.node.Next())], from)
  {
    hide Follows, Asks;
    OneMoreAsk(w.node, w.node.SetAutostart(on), Autostart(on, w.node.Next()), from);
  }

  // ------------------------------------------------------ the whole request

  /** Whether the handler takes the stack for stopped when it begins. */
  function Believed(c: Cache, n: Node): bool {
    if n.Readable() then !n.running else c.stopped
  }

  /** Before the writes: perhaps a stop. */
  ghost predicate StopOnly(running: bool, stopped: bool, cfg: Config, stop: seq<Entry>) {
    if StopStack(stopped, cfg) then
      |stop| == 2 && stop[0].Autostart? && !stop[0].on && stop[1].Stop? && stop[1].running == running
    else stop == []
  }

  /** After them: perhaps a start. */
  ghost predicate StartOnly(running: bool, stopped: bool, cfg: Config, start: seq<Entry>) {
    if RestartStack(stopped, cfg) then
      && 1 <= |start| <= 2 && start[0].Start? && start[0].running == running
      && (|start| == 2 ==> start[1].Autostart? && start[1].on && !running && start[0].outcome.Accepted?)
    else start == []
  }

  /** A start that succeeded is followed by the autostart flag. */
  ghost predicate FlagFollows(start: seq<Entry>) {
    forall e :: e in start && e.Start? && !e.running && e.outcome.Accepted? ==> |start| == 2
  }

  /** What a request asks of a node. */
  ghost predicate InOrder(n: Node, stopped: bool, cfg: Config, a: Attributes, stop: seq<Entry>, writes: seq<Entry>,
                          start: seq<Entry>) {
    && StopOnly(n.running, stopped, cfg, stop)
    && AsksFor(writes, Changes(Items(a, cfg)), Power(n.running, stop))
    && StartOnly(Power(n.running, stop), stopped, cfg, start)
  }

  lemma StopPart(w: World, stopped: bool, cfg: Config, from: Node) returns (stop: seq<Entry>)
    ensures var w' := if StopStack(stopped, cfg) then DoStop(w) else w;
            && After(w, w', stop, from) && StopOnly(w.node.running, stopped, cfg, stop)
            && w'.cache.attributes == w.cache.attributes
  {
    hide StopStack, DoStop, After;
    stop := [];
    NothingAsked(w, w, from);
    if StopStack(stopped, cfg) {
      stop := DoStopAsks(w, from);
      StopLeavesAttributes(w);
    }
  }

  lemma StartPart(w: World, stopped: bool, cfg: Config, from: Node) returns (start: seq<Entry>)
    ensures var w' := if RestartStack(stopped, cfg) then DoStart(w) else w;
            After(w, w', start, from) && StartOnly(w.node.running, stopped, cfg, start)
    ensures Heard(w.node) ==> FlagFollows(start)
  {
    hide RestartStack, DoStart, After, Heard;
    start := [];
    NothingAsked(w, w, from);
    if RestartStack(stopped, cfg) { start := DoStartAsks(w, from); }
  }

  lemma LastPart(w: World, from: Node)
    ensures After(w, if w.changed then Refresh(w) else w, [], from)
  {
    hide Refresh, After;
    NothingAsked(w, w, from);
    if w.changed {
      RefreshIsGetAll(w);
      GetAllAsks(w, ALL_FIELDS, from);
    }
  }

  /** The request in its stages, from what the handler takes the stack for. */
  lemma InStages(c: Cache, n: Node, cfg: Config) returns (w1: World, w2: World, w3: World, w4: World)
    ensures w1.cache.attributes == c.attributes && w1.node == Get(Begin(c, n), STATUS).node
    ensures w1.node.running == n.running && w1.changed == StateChange(Believed(c, n), cfg)
    ensures HeardAfterFirst(n) ==> Heard(w1.node)
    ensures w2 == if StopStack(Believed(c, n), cfg) then DoStop(w1) else w1
    ensures w3 == DoAll(w2, Items(w2.cache.attributes, cfg))
    ensures w4 == if RestartStack(Believed(c, n), cfg) then DoStart(w3) else w3
    ensures Handle(c, n, cfg) == if w4.changed then Refresh(w4) else w4
    ensures HeardAfterFirst(n) ==> Heard(w3.node)
  {
    hide Get, DoStop, DoAll, DoStart, Refresh, Items, StopStack, RestartStack, StateChange, Believed, Heard, Added,
      HeardAfterFirst, Failed;
    StatusKeeps(c, n);
    if HeardAfterFirst(n) { FirstRead(Begin(c, n)); }
    w1 := Get(Begin(c, n), STATUS).(changed := StateChange(Believed(c, n), cfg));
    StaysHeard(Get(Begin(c, n), STATUS).node, w1.node);
    w2 := if StopStack(Believed(c, n), cfg) then DoStop(w1) else w1;
    w3 := DoAll(w2, Items(w2.cache.attributes, cfg));
    if Heard(w1.node) { StopStaysHeard(w1); }
    DoAllKeeps(w2, Items(w2.cache.attributes, cfg));
    w4 := if RestartStack(Believed(c, n), cfg) then DoStart(w3) else w3;
  }

  lemma HandleAsks(c: Cache, n: Node, cfg: Config) returns (stop: seq<Entry>, writes: seq<Entry>, start: seq<Entry>)
    requires n.log == []
    ensures Asks(Handle(c, n, cfg).node.log) == stop + writes + start && Follows(Handle(c, n, cfg).node, n)
    ensures InOrder(n, Believed(c, n), cfg, c.attributes, stop, writes, start)
    ensures HeardAfterFirst(n) ==> FlagFollows(start)
  {
    hide Handle, Get, DoStop, DoAll, DoStart, Refresh, Items, StopStack, RestartStack, After, Power, Follows, AsksFor,
      StopOnly, StartOnly, Changes, Believed, Heard, HeardAfterFirst, FlagFollows;
    var w, stopped := Begin(c, n), Believed(c, n);
    StartsFollowing(n);
    var w1, w2, w3, w4 := InStages(c, n, cfg);
    GetAsks(w, STATUS, n);
    SameAfter(w, w, Get(w, STATUS), w1, [], n);
    stop := StopPart(w1, stopped, cfg, n);
    AfterTwice(w, w1, w2, [], stop, n);
    Parts([], stop, [], []);
    writes := DoAllAsks(w2, Items(w2.cache.attributes, cfg), n);
    AfterTwice(w, w2, w3, stop, writes, n);
    start := StartPart(w3, stopped, cfg, n);
    AfterTwice(w, w3, w4, stop + writes, start, n);
    LastPart(w4, n);
    AfterTwice(w, w4, Handle(c, n, cfg), stop + writes + start, [], n);
    Parts([], stop, writes, start);
    AfterAll(w, w2, stop, n);
    AfterAll(w, Handle(c, n, cfg), stop + writes + start, n);
    PowerAfter(w2, stop, n);
  }

  lemma StartsFollowing(n: Node)
    requires n.log == []
    ensures Follows(n, n)
  {}

  lemma StatusKeeps(c: Cache, n: Node)
    ensures var w0 := Get(Begin(c, n), STATUS);
            && w0.cache == c.(stopped := Believed(c, n)) && w0.res == OK && !w0.changed
            && w0.node.running == n.running && w0.node.settings == n.settings
  {}

  lemma StopLeavesAttributes(w: World)
    ensures DoStop(w).cache.attributes == w.cache.attributes
  {}

  lemma Parts(none: seq<Entry>, a: seq<Entry>, b: seq<Entry>, c: seq<Entry>)
    requires none == []
    ensures none + a == a && (a + b + c) + [] == a + b + c
  {}

  lemma AfterAll(w: World, w': World, asks: seq<Entry>, from: Node)
    requires After(w, w', asks, from) && Follows(w.node, from) && w.node.log == []
    ensures Asks(w'.node.log) == asks && Follows(w'.node, from)
  {
    hide Follows;
    assert [] + asks == asks;
  }

  lemma PowerAfter(w: World, asks: seq<Entry>, from: Node)
    requires Asks(w.node.log) == asks && Follows(w.node, from)
    ensures w.node.running == Power(from.running, asks)
  {}

  // ---------------------------------------------------------- the on/off state

  lemma {:induction false} AsksAre(log: seq<Entry>)
    ensures forall e :: e in Asks(log) <==> e in log && !e.Got? && !e.Polled?
  {
    if log != [] {
      AsksAre(log[..|log| - 1]);
      assert log == log[..|log| - 1] + [log[|log| - 1]];
    }
  }

  lemma {:induction false} PowerConcat(running: bool, a: seq<Entry>, b: seq<Entry>)
    ensures Power(running, a + b) == Power(Power(running, a), b)
    decreases |b|
  {
    if b == [] {
      assert a + b == a;
    } else {
      assert (a + b)[..|a + b| - 1] == a + b[..|b| - 1];
      PowerConcat(running, a, b[..|b| - 1]);
    }
  }

  lemma {:induction false} WritesKeepPower(running: bool, asks: seq<Entry>)
    requires forall i :: 0 <= i < |asks| ==> asks[i].Wrote?
    ensures Power(running, asks) == running
  {
    if asks != [] { WritesKeepPower(running, asks[..|asks| - 1]); }
  }

  /** Some part of the request can only be written while the stack is stopped. */
  predicate TouchesStopped(cfg: Config) {
    || cfg.role != None || cfg.nodeAddress != None || cfg.networkAddress != None
    || cfg.networkChannel != None || cfg.keys != None || cfg.acRange != None
  }

  /** What is asked about the stack, and when: a stop of a running stack, when it is
      to be off or a part is to be written that needs it; a start of a stopped one
      that is to be on, and after such a stop, unless it is to stay off.  Before a
      stop the autostart flag is cleared, after a start that succeeded it is set. */
  lemma SwitchesAskedFor(c: Cache, n: Node, cfg: Config)
    requires Believed(c, n) == !n.running && n.log == []
    ensures var log := Handle(c, n, cfg).node.log;
            && ((exists e :: e in log && e.Stop?) <==> n.running && (TouchesStopped(cfg) || cfg.sinkOn == Some(false)))
            && ((exists e :: e in log && e.Start?) <==>
                  if n.running then TouchesStopped(cfg) && cfg.sinkOn != Some(false) else cfg.sinkOn == Some(true))
            && ((exists e :: e in log && e.Autostart? && !e.on) <==> (exists e :: e in log && e.Stop?))
            && ((exists e :: e in log && e.Autostart? && e.on) ==>
                  exists e :: e in log && e.Start? && !e.running && e.outcome.Accepted?)
            && (HeardAfterFirst(n) && (exists e :: e in log && e.Start? && !e.running && e.outcome.Accepted?) ==>
                  exists e :: e in log && e.Autostart? && e.on)
  {
    hide Handle, Items, Changes, Power, Follows, TouchesStopped, StopStack, RestartStack, AsksFor, InOrder;
    var log := Handle(c, n, cfg).node.log;
    var stop, writes, start := HandleAsks(c, n, cfg);
    AsksAre(log);
    SwitchesOf(n, cfg, c.attributes, stop, writes, start);
    var asks := stop + writes + start;
    if n.running && (TouchesStopped(cfg) || cfg.sinkOn == Some(false)) {
      assert stop[0] in asks && stop[1] in asks;
    }
    if if n.running then TouchesStopped(cfg) && cfg.sinkOn != Some(false) else cfg.sinkOn == Some(true) {
      assert start[0] in asks;
    }
    forall e | e in log && (e.Stop? || e.Start? || e.Autostart?)
      ensures e in stop || e in start
    {
      assert e in asks;
    }
  }

  /** Which of the parts of what is asked are there, and what they hold. */
  lemma SwitchesOf(n: Node, cfg: Config, a: Attributes, stop: seq<Entry>, writes: seq<Entry>, start: seq<Entry>)
    requires InOrder(n, !n.running, cfg, a, stop, writes, start)
    ensures if n.running && (TouchesStopped(cfg) || cfg.sinkOn == Some(false)) then
              |stop| == 2 && stop[0].Autostart? && !stop[0].on && stop[1].Stop?
            else stop == []
    ensures if if n.running then TouchesStopped(cfg) && cfg.sinkOn != Some(false) else cfg.sinkOn == Some(true) then
              && 1 <= |start| <= 2 && start[0].Start?
              && (|start| == 2 ==>
                    start[1].Autostart? && start[1].on && !start[0].running && start[0].outcome.Accepted?)
            else start == []
    ensures forall e :: e in writes ==> e.Wrote?
    ensures forall e :: e in stop ==> !e.Start? && (e.Autostart? ==> !e.on)
    ensures forall e :: e in start ==> !e.Stop? && (e.Autostart? ==> e.on)
  {
    hide Items, Changes, Power;
  }

  /** The on/off state after a request whose stop and start were accepted, so far as
      they were asked for, is the one that was requested or, nothing being requested,
      the one before, whatever else was refused, lost or out of range. */
  lemma PowerIsAsRequested(c: Cache, n: Node, cfg: Config)
    requires Believed(c, n) == !n.running && n.log == []
    requires forall e :: e in Handle(c, n, cfg).node.log && (e.Stop? || e.Start?) ==> e.outcome.Accepted?
    ensures Handle(c, n, cfg).node.running == Or(cfg.sinkOn, n.running)
  {
    hide Handle, Items, Changes, Follows, Power;
    var w := Handle(c, n, cfg);
    var stop, writes, start := HandleAsks(c, n, cfg);
    AsksAre(w.node.log);
    if stop != [] { assert stop[1] in Asks(w.node.log); }
    if start != [] { assert start[0] in Asks(w.node.log); }
    PowerOfAll(n, cfg, w.node, stop, writes, start);
    SwitchOff(n.running, stop);
    SwitchOn(Power(n.running, stop), start);
  }

  lemma PowerOfAll(n: Node, cfg: Config, n': Node, stop: seq<Entry>, writes: seq<Entry>, start: seq<Entry>)
    requires Asks(n'.log) == stop + writes + start && Follows(n', n)
    requires forall i :: 0 <= i < |writes| ==> writes[i].Wrote?
    ensures n'.running == Power(Power(n.running, stop), start)
  {
    hide Asks, Power;
    PowerConcat(n.running, stop + writes, start);
    PowerConcat(n.running, stop, writes);
    WritesKeepPower(Power(n.running, stop), writes);
  }

  lemma SwitchOff(running: bool, stop: seq<Entry>)
    ensures stop == [] ==> Power(running, stop) == running
    ensures |stop| == 2 && stop[0].Autostart? && stop[1].Stop? ==>
              Power(running, stop) == (running && !stop[1].outcome.Done())
  {
    if |stop| == 2 {
      assert stop[..1] == [stop[0]];
      PowerOfOne(running, stop[0]);
    }
  }

  lemma PowerOfOne(running: bool, e: Entry)
    ensures Power(running, [e]) == if e.Stop? && e.outcome.Done() then false
                                   else if e.Start? && e.outcome.Done() then true
                                   else running
  {
    assert [e][..0] == [];
  }

  lemma SwitchOn(running: bool, start: seq<Entry>)
    ensures start == [] ==> Power(running, start) == running
    ensures 1 <= |start| <= 2 && start[0].Start? && (|start| == 2 ==> start[1].Autostart?) ==>
              Power(running, start) == (running || start[0].outcome.Done())
  {
    if |start| >= 1 {
      assert start[..1] == [start[0]];
      PowerOfOne(running, start[0]);
      if |start| == 1 { assert start == [start[0]]; }
    }
  }

  // --------------------------------------------------------------- the settings

  datatype Part =
    | RolePart | NodeAddressPart | NetworkAddressPart | NetworkChannelPart | AppConfigPart
    | CipherPart | AuthenticationPart | AcRangePart

  function PartOf(write: Write): Part {
    match write
    case Role(_) => RolePart
    case NodeAddress(_) => NodeAddressPart
    case NetworkAddress(_) => NetworkAddressPart
    case NetworkChannel(_) => NetworkChannelPart
    case AppConfigData(_) => AppConfigPart
    case CipherKey(_) => CipherPart
    case AuthenticationKey(_) => AuthenticationPart
    case AccessCycleRange(_, _) => AcRangePart
  }

  /** The place of a part in the request: the role is changed first. */
  function Rank(p: Part): nat {
    match p
    case RolePart => 0
    case NodeAddressPart => 1
    case NetworkAddressPart => 2
    case NetworkChannelPart => 3
    case AppConfigPart => 4
    case CipherPart => 5
    case AuthenticationPart => 6
    case AcRangePart => 7
  }

  /** The write that would give a node the value it has. */
  function Held(s: Settings, p: Part): Option<Write> {
    match p
    case RolePart => Some(Role(s.attributes.role))
    case NodeAddressPart => Some(NodeAddress(s.attributes.nodeAddress))
    case NetworkAddressPart => Some(NetworkAddress(s.attributes.networkAddress))
    case NetworkChannelPart => Some(NetworkChannel(s.attributes.networkChannel))
    case AppConfigPart => Some(AppConfigData(s.appConfig))
    case CipherPart => if s.cipherKey.Some? then Some(CipherKey(s.cipherKey.value)) else None
    case AuthenticationPart =>
      if s.authenticationKey.Some? then Some(AuthenticationKey(s.authenticationKey.value)) else None
    case AcRangePart => Some(AccessCycleRange(s.attributes.acRangeMin, s.attributes.acRangeMax))
  }

  /** What the request says of a part, if it says something that is in range. */
  function Requested(cfg: Config, p: Part): Option<Write> {
    match p
    case RolePart => if cfg.role.Some? then Some(Role(cfg.role.value)) else None
    case NodeAddressPart => if cfg.nodeAddress.Some? then Some(NodeAddress(cfg.nodeAddress.value)) else None
    case NetworkAddressPart =>
      if cfg.networkAddress.Some? && cfg.networkAddress.value <= 0xFFFF_FFFF then
        Some(NetworkAddress(cfg.networkAddress.value))
      else None
    case NetworkChannelPart =>
      if cfg.networkChannel.Some? && cfg.networkChannel.value <= 0xFF then
        Some(NetworkChannel(cfg.networkChannel.value))
      else None
    case AppConfigPart =>
      if cfg.appConfig.Some? && cfg.appConfig.value.seqNumber <= 0xFF && cfg.appConfig.value.diagInterval <= 0xFFFF then
        Some(AppConfigData(cfg.appConfig.value))
      else None
    case CipherPart => if cfg.keys.Some? then Some(CipherKey(cfg.keys.value.cipher)) else None
    case AuthenticationPart =>
      if cfg.keys.Some? then Some(AuthenticationKey(cfg.keys.value.authentication)) else None
    case AcRangePart =>
      if cfg.acRange.Some? && cfg.acRange.value.min <= 0xFFFF && cfg.acRange.value.max <= 0xFFFF then
        Some(AccessCycleRange(cfg.acRange.value.min, cfg.acRange.value.max))
      else None
  }

  /** The cache holds this value already, so that nothing is to be written. */
  predicate IsCached(a: Attributes, write: Write) {
    match write
    case Role(v) => v == a.role
    case NodeAddress(v) => v == a.nodeAddress
    case NetworkAddress(v) => v == a.networkAddress
    case NetworkChannel(v) => v == a.networkChannel
    case AccessCycleRange(lo, hi) => lo == a.acRangeMin && hi == a.acRangeMax
    case _ => false
  }

  lemma HeldWritten(s: Settings, write: Write, p: Part)
    ensures Held(Written(s, write), p) == if PartOf(write) == p then Some(write) else Held(s, p)
  {}

  lemma ItemsWanted(a: Attributes, cfg: Config, write: Write)
    ensures Change(write) in Items(a, cfg) <==>
            Requested(cfg, PartOf(write)) == Some(write) && !IsCached(a, write)
  {
    var items := Items(a, cfg);
    assert items[Rank(PartOf(write))] in items;
    ItemKinds(a, cfg);
  }

  lemma {:induction false} ChangesAre(items: seq<Item>, write: Write)
    ensures write in Changes(items) <==> Change(write) in items
    decreases |items|
  {
    if items != [] {
      ChangesAre(items[1..], write);
      assert Change(write) in items <==> items[0] == Change(write) || Change(write) in items[1..];
    }
  }

  /** The place of an entry in a request: the stop, the parts in their order, the
      start.  The autostart flag is cleared before a stop and set after a start. */
  function Place(e: Entry): nat {
    match e
    case Autostart(on, _) => if on then 11 else 0
    case Stop(_, _) => 1
    case Wrote(write, _, _) => 2 + Rank(PartOf(write))
    case Start(_, _) => 10
    case _ => 12
  }

  /** Each entry in its place, and none twice. */
  ghost predicate InPlace(asks: seq<Entry>) {
    forall i, j :: 0 <= i < j < |asks| ==> Place(asks[i]) < Place(asks[j])
  }

  ghost predicate Ordered(asks: seq<Entry>, lo: nat, hi: nat) {
    (forall i :: 0 <= i < |asks| ==> lo <= Place(asks[i]) < hi) && InPlace(asks)
  }

  lemma OrderedTwice(a: seq<Entry>, b: seq<Entry>, lo: nat, mid: nat, hi: nat)
    requires Ordered(a, lo, mid) && Ordered(b, mid, hi) && lo <= mid <= hi
    ensures Ordered(a + b, lo, hi)
  {
    hide Place;
  }

  lemma {:induction false} WritesOrdered(items: seq<Item>, k: nat, asks: seq<Entry>, running: bool)
    requires forall i :: 0 <= i < |items| && items[i].Change? ==> Rank(PartOf(items[i].write)) == k + i
    requires AsksFor(asks, Changes(items), running)
    ensures Ordered(asks, 2 + k, 2 + k + |items|)
    decreases |items|
  {
    hide Rank, PartOf;
    if items != [] {
      forall i | 0 <= i < |items[1..]| && items[1..][i].Change?
        ensures Rank(PartOf(items[1..][i].write)) == k + 1 + i
      {
        assert items[1..][i] == items[i + 1];
      }
      if items[0].Change? {
        WritesOrdered(items[1..], k + 1, asks[1..], running);
        OrderedTwice(asks[..1], asks[1..], 2 + k, 3 + k, 2 + k + |items|);
        assert asks == asks[..1] + asks[1..];
      } else {
        WritesOrdered(items[1..], k + 1, asks, running);
      }
    }
  }

  lemma ItemsRanked(a: Attributes, cfg: Config)
    ensures |Items(a, cfg)| == 8
    ensures forall i :: 0 <= i < 8 && Items(a, cfg)[i].Change? ==> Rank(PartOf(Items(a, cfg)[i].write)) == i
  {
    hide RoleItem, NodeAddressItem, NetworkAddressItem, NetworkChannelItem, AppConfigItem, CipherItem,
      AuthenticationItem, AcRangeItem;
    ItemKinds(a, cfg);
    AcRangeKind(a, cfg);
  }

  lemma AcRangeKind(a: Attributes, cfg: Config)
    ensures AcRangeItem(a, cfg).Change? ==> AcRangeItem(a, cfg).write.AccessCycleRange?
  {}

  /** Whatever is refused, everything is asked for at most once, each in its place. */
  lemma AskedInOrder(c: Cache, n: Node, cfg: Config)
    requires n.log == []
    ensures InPlace(Asks(Handle(c, n, cfg).node.log))
  {
    hide Handle, Items, Changes, Power, Follows, Asks, Believed, StopStack, RestartStack, Place, AsksFor;
    var stop, writes, start := HandleAsks(c, n, cfg);
    ItemsRanked(c.attributes, cfg);
    WritesOrdered(Items(c.attributes, cfg), 0, writes, Power(n.running, stop));
    EndsOrdered(n.running, Power(n.running, stop), Believed(c, n), cfg, stop, start);
    OrderedTwice(stop, writes, 0, 2, 10);
    OrderedTwice(stop + writes, start, 0, 10, 12);
  }

  lemma EndsOrdered(running: bool, running': bool, stopped: bool, cfg: Config, stop: seq<Entry>, start: seq<Entry>)
    requires StopOnly(running, stopped, cfg, stop) && StartOnly(running', stopped, cfg, start)
    ensures Ordered(stop, 0, 2) && Ordered(start, 10, 12)
  {
    hide StopStack, RestartStack, Rank, PartOf;
  }

  ghost predicate TriedIn(log: seq<Entry>, write: Write) {
    exists e :: e in log && e.Wrote? && e.write == write
  }

  ghost predicate MadeIn(log: seq<Entry>, write: Write) {
    exists e :: e in log && e.Wrote? && e.write == write && e.outcome.Done()
  }

  /** Every part that is present, in range and not what the cache holds is tried, and
      nothing else is, whatever became of the others. */
  lemma TriedIffWanted(c: Cache, n: Node, cfg: Config, write: Write)
    requires n.log == []
    ensures TriedIn(Handle(c, n, cfg).node.log, write) <==>
            Requested(cfg, PartOf(write)) == Some(write) && !IsCached(c.attributes, write)
  {
    hide Handle, Items, Changes, Power, Follows, Requested, IsCached, PartOf, Asks, StopStack, RestartStack, Believed;
    var stop, tried, start := HandleAsks(c, n, cfg);
    var writes := Changes(Items(c.attributes, cfg));
    AsksAre(Handle(c, n, cfg).node.log);
    ChangesAre(Items(c.attributes, cfg), write);
    ItemsWanted(c.attributes, cfg, write);
    TriedAmong(Handle(c, n, cfg).node.log, stop, tried, start, write);
    if write in writes {
      var i :| 0 <= i < |writes| && writes[i] == write;
      assert tried[i] in tried;
    }
  }

  lemma TriedAmong(log: seq<Entry>, stop: seq<Entry>, tried: seq<Entry>, start: seq<Entry>, write: Write)
    requires forall e :: e in stop + tried + start <==> e in log && !e.Got? && !e.Polled?
    requires forall e :: e in stop || e in start ==> !e.Wrote?
    ensures TriedIn(log, write) <==> exists e :: e in tried && e.Wrote? && e.write == write
  {
    assert forall e :: e in stop + tried + start <==> e in stop || e in tried || e in start;
  }

  /** What a part holds after changes of which each part had one at most. */
  lemma {:induction false} HeldAfter(s: Settings, asks: seq<Entry>, p: Part)
    requires InPlace(asks)
    ensures forall i :: 0 <= i < |asks| && IsMade(asks[i], p) ==> Held(Replay(s, asks), p) == Some(asks[i].write)
    ensures (forall i :: 0 <= i < |asks| ==> !IsMade(asks[i], p)) ==> Held(Replay(s, asks), p) == Held(s, p)
  {
    hide Held, Written, Place;
    if asks != [] {
      var before, e := asks[..|asks| - 1], asks[|asks| - 1];
      HeldAfter(s, before, p);
      if e.Wrote? { HeldWritten(Replay(s, before), e.write, p); }
      forall i | 0 <= i < |before| && IsMade(before[i], p) ensures !IsMade(e, p) {
        SamePlace(before[i], e, p);
      }
    }
  }

  ghost predicate IsMade(e: Entry, p: Part) {
    e.Wrote? && PartOf(e.write) == p && e.outcome.Done()
  }

  lemma SamePlace(d: Entry, e: Entry, p: Part)
    ensures IsMade(d, p) && IsMade(e, p) ==> Place(d) == Place(e)
  {}

  /** After every request, whatever was refused, lost, unread or out of range: a part
      is what was requested if that was present and in range and its write was made,
      and what it was before otherwise. */
  lemma SettingsAfter(c: Cache, n: Node, cfg: Config, p: Part)
    requires n.log == []
    ensures var w := Handle(c, n, cfg);
            Held(w.node.settings, p) ==
            if Requested(cfg, p).Some? && MadeIn(w.node.log, Requested(cfg, p).value) then Requested(cfg, p)
            else Held(n.settings, p)
  {
    hide Handle, Items, Changes, Power, Requested, IsCached, PartOf, Asks, Believed, StopOnly, StartOnly, Held,
      Replay, InPlace, AsksFor;
    var log := Handle(c, n, cfg).node.log;
    var stop, writes, start := HandleAsks(c, n, cfg);
    var asks := Asks(log);
    AskedInOrder(c, n, cfg);
    AsksAre(log);
    HeldAfter(n.settings, asks, p);
    forall i | 0 <= i < |asks| && IsMade(asks[i], p)
      ensures Requested(cfg, p) == Some(asks[i].write) && MadeIn(log, asks[i].write)
    {
      assert asks[i] in asks;
      assert TriedIn(log, asks[i].write);
      TriedIffWanted(c, n, cfg, asks[i].write);
    }
    if Requested(cfg, p).Some? && MadeIn(log, Requested(cfg, p).value) {
      RequestedPart(cfg, p);
      var e :| e in log && e.Wrote? && e.write == Requested(cfg, p).value && e.outcome.Done();
      assert e in asks;
      var i :| 0 <= i < |asks| && asks[i] == e;
      assert IsMade(asks[i], p);
    }
  }

  lemma RequestedPart(cfg: Config, p: Part)
    requires Requested(cfg, p).Some?
    ensures PartOf(Requested(cfg, p).value) == p
  {}

  /** Some try of this write was not made. */
  ghost predicate FailedIn(log: seq<Entry>, write: Write) {
    exists e :: e in log && e.Wrote? && e.write == write && !e.outcome.Done()
  }

  /** With a cache whose attributes were those of the node, a part that was requested
      and in range is as requested, unless its own write was refused or lost. */
  lemma RequestedIsHeld(c: Cache, n: Node, cfg: Config, p: Part)
    requires AttributesAgree(Begin(c, n)) && n.log == []
    ensures var w := Handle(c, n, cfg);
            Held(w.node.settings, p) ==
            if Requested(cfg, p).Some? && !FailedIn(w.node.log, Requested(cfg, p).value) then Requested(cfg, p)
            else Held(n.settings, p)
  {
    hide Handle, Requested, IsCached, PartOf, Asks, Held, AttributesAgree;
    SettingsAfter(c, n, cfg, p);
    if Requested(cfg, p).Some? {
      var write, log := Requested(cfg, p).value, Handle(c, n, cfg).node.log;
      RequestedPart(cfg, p);
      TriedIffWanted(c, n, cfg, write);
      OneTry(c, n, cfg, write);
      if IsCached(c.attributes, write) { CachedIsHeld(c, n, write); }
    }
  }

  lemma CachedIsHeld(c: Cache, n: Node, write: Write)
    requires AttributesAgree(Begin(c, n)) && IsCached(c.attributes, write)
    ensures Held(n.settings, PartOf(write)) == Some(write)
  {}

  lemma OneTry(c: Cache, n: Node, cfg: Config, write: Write)
    requires n.log == []
    ensures var log := Handle(c, n, cfg).node.log;
            TriedIn(log, write) ==> (MadeIn(log, write) <==> !FailedIn(log, write))
  {
    hide Handle, InPlace, Asks, Outcome.Done;
    var log := Handle(c, n, cfg).node.log;
    var asks := Asks(log);
    AskedInOrder(c, n, cfg);
    AsksAre(log);
    if MadeIn(log, write) && FailedIn(log, write) {
      var d :| d in log && d.Wrote? && d.write == write && d.outcome.Done();
      var e :| e in log && e.Wrote? && e.write == write && !e.outcome.Done();
      OnlyOne(asks, d, e);
    }
  }

  lemma OnlyOne(asks: seq<Entry>, d: Entry, e: Entry)
    requires InPlace(asks)
    requires d in asks && e in asks && d.Wrote? && e.Wrote? && d.write == e.write
    ensures d == e
  {
    hide PartOf, Rank;
    var i, j :| 0 <= i < |asks| && 0 <= j < |asks| && asks[i] == d && asks[j] == e;
    assert Place(asks[i]) == Place(asks[j]);
  }

  // ---------------------------------------------------------------- the answer

  /** What the answer is when only the start failed. */
  function StartAnswer(e: Entry): AppRes
    requires e.Start?
  {
    if e.outcome.Unheard? || e.outcome.Lost? then INTERNAL_ERROR
    else if e.running then STACK_ALREADY_STARTED
    else NODE_ADD_NOT_SET
  }

  lemma {:induction false} WritingAnswers(w: World, items: seq<Item>)
    requires w.res == OK || w.res == INVALID_VALUE
    ensures DoAll(w, items).res == OK || DoAll(w, items).res == INVALID_VALUE
    decreases |items|
  {
    hide Do;
    if items != [] {
      OneAnswers(w, items[0]);
      WritingAnswers(Do(w, items[0]), items[1..]);
    }
  }

  lemma OneAnswers(w: World, item: Item)
    requires w.res == OK || w.res == INVALID_VALUE
    ensures Do(w, item).res == OK || Do(w, item).res == INVALID_VALUE
  {
    hide Get;
    if item.Change? { NotedReads(w.(node := w.node.Set(item.write)), item.write); }
  }

  lemma StartAnswers(w: World, o: Outcome)
    requires Heard(w.node) && o == w.node.Next()
    ensures DoStart(w).res == if (o.Accepted? && !w.node.running) || w.res != OK then w.res
                              else StartAnswer(Start(w.node.running, o))
  {
    hide Refresh, Heard;
    var o' := StartStackKeeps(w);
    var (n, res) := w.node.StartRequest();
  }

  ghost predicate NoStarts(log: seq<Entry>) {
    forall e :: e in log ==> !e.Start?
  }

  lemma NoneStarted(w: World, w': World)
    requires w.node.log <= w'.node.log && NoStarts(w.node.log) && NoStarts(Added(w, w'))
    ensures NoStarts(w'.node.log)
  {
    assert w'.node.log == w.node.log + Added(w, w');
  }

  /** All but the start. */
  lemma BeforeStart(c: Cache, n: Node, cfg: Config, w1: World, w2: World, w3: World, w4: World)
    requires Agree(Begin(c, n)) && HeardAfterFirst(n) && n.log == []
    requires n.settings.attributes.networkAddress <= UINT32_MAX && n.settings.attributes.networkChannel <= UINT8_MAX
    requires Staged(c, n, cfg, w1, w2, w3, w4) && Heard(w1.node) && AllQuiet(w1.node.log)
    ensures w3.res == OK || w3.res == INVALID_VALUE
    ensures w3.res == OK <==> cfg.InRange() && NothingFailed(w3.node.log)
    ensures NoStarts(w3.node.log)
  {
    hide Handle, DoStop, DoAll, DoStart, Items, NothingFailed, AllQuiet, Added, StopTried, Heard, Agree,
      HeardAfterFirst, StateChange, RestartStack, Config.InRange, NoStarts;
    QuietFailsNothing(w1.node.log);
    QuietStartsNothing(w1.node.log);
    if StopStack(!n.running, cfg) {
      OnlyRunningStops(n.running, cfg);
      var o := DoStopKeeps(w1);
      StopCounts(w1, w2, o);
      StopStartsNothing(w1, w2, o);
    }
    ItemsInRange(n.settings.attributes, cfg);
    WritingAnswers(w2, Items(n.settings.attributes, cfg));
    DoAllKeeps(w2, Items(n.settings.attributes, cfg));
    FailedSince(w2, w3);
    WritesStartNothing(Added(w2, w3));
    NoneStarted(w2, w3);
  }

  lemma QuietStartsNothing(log: seq<Entry>)
    requires AllQuiet(log)
    ensures NoStarts(log)
  {}

  lemma StopStartsNothing(w: World, w': World, o: Outcome)
    requires StopTried(w, w', o) && NoStarts(w.node.log)
    ensures NoStarts(w'.node.log)
  {
    NoneStarted(w, w');
  }

  lemma WritesStartNothing(log: seq<Entry>)
    requires forall e :: e in log ==> e.Got? || e.Wrote?
    ensures NoStarts(log)
  {}

  /** Only the start can have failed since. */
  lemma StartAdds(w: World, w': World, o: Outcome)
    requires StartTried(w, w', o) && NoStarts(w.node.log)
    ensures forall e :: e in w'.node.log && Failed(e) && !e.Start? ==> e in w.node.log
    ensures forall e :: e in w.node.log ==> e in w'.node.log
    ensures forall e :: e in w'.node.log && e.Start? ==> e == Start(w.node.running, o)
  {
    assert w'.node.log == w.node.log + Added(w, w');
  }

  lemma ReadsAdd(w: World, w': World)
    requires OnlyRead(w, w')
    ensures w'.res == w.res
    ensures forall e :: e in w'.node.log && (Failed(e) || e.Start?) <==> e in w.node.log && (Failed(e) || e.Start?)
  {
    assert w'.node.log == w.node.log + Added(w, w');
  }

  /** Which error is reported: INVALID_VALUE when a value was out of range, or a write
      or the stop failed; else that of the start, when it was asked for and failed. */
  lemma WhichAnswer(c: Cache, n: Node, cfg: Config)
    requires Agree(Begin(c, n)) && HeardAfterFirst(n) && n.log == []
    requires n.settings.attributes.networkAddress <= UINT32_MAX && n.settings.attributes.networkChannel <= UINT8_MAX
    ensures var w := Handle(c, n, cfg);
            && (w.res == INVALID_VALUE <==> !cfg.InRange() || exists e :: e in w.node.log && Failed(e) && !e.Start?)
            && forall e :: e in w.node.log && e.Start? && Failed(e) && w.res != INVALID_VALUE ==>
                 w.res == StartAnswer(e)
  {
    hide Handle, DoStop, DoAll, DoStart, Items, AllQuiet, Added, StopTried, StartTried, Heard, Agree, HeardAfterFirst,
      OnlyRead, StateChange, RestartStack, StopStack, Config.InRange;
    var w1, w2, w3, w4 := Stages(c, n, cfg);
    assert w1.node.log[|n.log|..] == w1.node.log;
    BeforeStart(c, n, cfg, w1, w2, w3, w4);
    if RestartStack(!n.running, cfg) {
      var o := DoStartKeeps(w3);
      StartAdds(w3, w4, o);
      StartAnswers(w3, o);
    }
    ReadsAdd(w4, Handle(c, n, cfg));
  }

  // ----------------------------------------------------------------- the cache

  /** Some write was accepted. */
  ghost predicate AcceptsWrite(log: seq<Entry>) {
    exists e :: e in log && e.Wrote? && e.outcome.Accepted?
  }

  lemma {:induction false} WritesAreNoted(w: World, items: seq<Item>)
    ensures w.node.log <= DoAll(w, items).node.log
    ensures w.changed || AcceptsWrite(Added(w, DoAll(w, items))) ==> DoAll(w, items).changed
    decreases |items|
  {
    hide Do, Added;
    if items == [] {
      NothingAdded(w);
    } else {
      var w1 := Do(w, items[0]);
      DoKeeps(w, items[0]);
      DoNotes(w, items[0]);
      WritesAreNoted(w1, items[1..]);
      AddedTwice(w, w1, DoAll(w, items));
      assert forall e :: e in Added(w, w1) + Added(w1, DoAll(w, items))
                         ==> e in Added(w, w1) || e in Added(w1, DoAll(w, items));
    }
  }

  lemma NothingAdded(w: World)
    ensures Added(w, w) == []
  {}

  lemma DoNotes(w: World, item: Item)
    ensures w.changed || (item.Change? && w.node.Next().Accepted?) ==> Do(w, item).changed
  {
    hide Get;
    if item.Change? { NotedReads(w.(node := w.node.Set(item.write)), item.write); }
  }

  /** After a request that asks for another on/off state, or of which a write was
      accepted, the cache agrees with the node, however out of date it was before. */
  lemma AgreesAfterChange(c: Cache, n: Node, cfg: Config)
    requires Believed(c, n) == !n.running && HeardAfterFirst(n) && n.log == []
    requires cfg.sinkOn == Some(!n.running) || AcceptsWrite(Handle(c, n, cfg).node.log)
    ensures InTouch(Handle(c, n, cfg))
  {
    hide Handle, Believed, DoStop, DoAll, DoStart, Items, InTouch, HeardAfterFirst, AcceptsWrite, Heard, OnlyRead,
      AllQuiet, StopTried, StartTried, Added, Refresh, StopStack, RestartStack, Get, Quiet, Failed;
    ChangeRestoresAgreement(c, n, cfg);
    var w1, w2, w3, w4 := InStages(c, n, cfg);
    var w := Handle(c, n, cfg);
    FirstRead(Begin(c, n));
    assert w1.node.log[|n.log|..] == w1.node.log;
    LastReads(w4, w);
    var o := StopsOfRequest(n.running, Items(w2.cache.attributes, cfg), cfg, w1, w2, w3, w4, w);
    if StopStack(!n.running, cfg) { StopEnds(w1, w2, o); }
    WritesAreNoted(w2, Items(w2.cache.attributes, cfg));
    AcceptedThere(Added(w2, w3), w.node.log);
    var o' := DoStartKeeps(w3);
  }

  lemma LastReads(w: World, w': World)
    requires w' == if w.changed then Refresh(w) else w
    ensures OnlyRead(w, w') && w'.changed == w.changed
  {
    hide Refresh;
    RefreshIsGetAll(w);
    GetAllKeeps(w, ALL_FIELDS);
    NothingRead(w);
  }

  lemma AcceptedThere(written: seq<Entry>, log: seq<Entry>)
    requires forall e :: e in log && e.Wrote? ==> e in written
    ensures AcceptsWrite(log) ==> AcceptsWrite(written)
  {}
}
