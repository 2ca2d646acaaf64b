/** The gateway's upload handler: a scratchpad in one piece or in chunks, and the
    stack that is stopped for it and started again afterwards. */
module Otap {
  import opened AppResults
  import opened Common
  import opened ScratchpadNode
  import opened Scratchpad

  const INVALID_CURRENT_SEQ: nat := 0xFFFF_FFFF

  datatype Content = NoScratchpad | Whole(bytes: seq<byte>) | Chunk(bytes: seq<byte>, offset: nat, total: nat)

  datatype Request = Request(seqNumber: nat, content: Content)

  /** The handler's memory: the upload in progress, and whether the stack is to be
      started after it. */
  datatype Loader = Loader(currentSeq: nat, restart: bool) {
    predicate Loading() {
      currentSeq != INVALID_CURRENT_SEQ
    }
  }

  datatype Outcome = Outcome(loader: Loader, node: Node, res: AppRes)

  function StopIfRunning(l: Loader, n: Node): (r: (Loader, Node))
    requires n.Valid()
    ensures r.1.Valid()
  {
    var (n', code) := n.Read();
    if code == 0 && n'.running then (l.(restart := true), n'.Stop().0) else (l, n')
  }

  function BeginChunk(l: Loader, n: Node, total: nat, seqNumber: nat): (r: Outcome)
    requires n.Valid()
    ensures r.node.Valid()
  {
    StartKeepsValid(n, total, seqNumber);
    var (n', res) := StartUpdate(n, total, seqNumber);
    Outcome(l.(currentSeq := if res == OK then seqNumber else INVALID_CURRENT_SEQ), n', res)
  }

  function LoadChunk(l: Loader, n: Node, c: Content, seqNumber: nat): (r: Outcome)
    requires n.Valid() && c.Chunk?
    ensures r.node.Valid()
  {
    if seqNumber != l.currentSeq then Outcome(l, n, INVALID_SEQ)
    else
      var (n', res) := UploadBlock(n, c.bytes, c.offset);
      var done := res == OK && c.offset + |c.bytes| == c.total;
      Outcome(if done then l.(currentSeq := INVALID_CURRENT_SEQ) else l, n', res)
  }

  function HandleChunk(l: Loader, n: Node, c: Content, seqNumber: nat): (r: Outcome)
    requires n.Valid() && c.Chunk?
    ensures r.node.Valid()
  {
    if c.offset == 0 then
      var o := BeginChunk(l, n, c.total, seqNumber);
      if o.res != OK then o else LoadChunk(o.loader, o.node, c, seqNumber)
    else
      LoadChunk(l, n, c, seqNumber)
  }

  function HandleContent(l: Loader, n: Node, r: Request): (o: Outcome)
    requires n.Valid()
    ensures o.node.Valid()
  {
    match r.content
    case Chunk(_, _, _) => HandleChunk(l, n, r.content, r.seqNumber)
    case Whole(bytes) =>
      var (n', res) := Upload(n, bytes, r.seqNumber);
      Outcome(l.(currentSeq := INVALID_CURRENT_SEQ), n', res)
    case NoScratchpad =>
      var (n', code) := n.Clear();
      Outcome(l.(currentSeq := INVALID_CURRENT_SEQ), n', Convert(CLEAR_LUT, code))
  }

  function RestartIfDone(o: Outcome): (r: Outcome)
    requires o.node.Valid()
    ensures r.node.Valid()
  {
    if o.loader.restart && !o.loader.Loading() then
      var (n', started) := o.node.Start();
      Outcome(o.loader.(restart := false), n', if o.res == OK then started else o.res)
    else o
  }

  /** One upload request. */
  function Handle(l: Loader, n: Node, r: Request): (o: Outcome)
    requires n.Valid()
    ensures o.node.Valid()
  {
    if r.seqNumber > UINT8_MAX then Outcome(l, n, INVALID_VALUE)
    else
      var (l', n') := StopIfRunning(l, n);
      RestartIfDone(HandleContent(l', n', r))
  }

  class Handler {
    var currentSeq: nat
    var restartAfterLoad: bool
    const link: Link

    constructor (link: Link)
      ensures Memory() == Loader(INVALID_CURRENT_SEQ, false) && this.link == link
    {
      currentSeq, restartAfterLoad, this.link := INVALID_CURRENT_SEQ, false, link;
    }

    ghost function Memory(): Loader
      reads this
    {
      Loader(currentSeq, restartAfterLoad)
    }

    method HandleScratchpadChunk(c: Content, seqNumber: nat) returns (res: AppRes)
      requires link.node.Valid() && c.Chunk?
      modifies `currentSeq, link
      ensures Outcome(Memory(), link.node, res) == HandleChunk(old(Memory()), old(link.node), c, seqNumber)
      ensures link.node.Valid()
    {
      hide Node.StartUpdate, UploadBlock;
      if c.offset == 0 {
        currentSeq := seqNumber;
        StartKeepsValid(link.node, c.total, seqNumber);
        res := WpcStartLocalScratchpadUpdate(link, c.total, seqNumber);
        if res != OK {
          currentSeq := INVALID_CURRENT_SEQ;
          return;
        }
      }
      if seqNumber != currentSeq {
        return INVALID_SEQ;
      }
      res := WpcUploadLocalBlockScratchpad(link, c.bytes, c.offset);
      if res != OK {
        return;
      }
      if c.offset + |c.bytes| == c.total {
        currentSeq := INVALID_CURRENT_SEQ;
      }
    }

    method HandleUploadScratchpad(r: Request) returns (res: AppRes)
      requires link.node.Valid()
      modifies this, link
      ensures Outcome(Memory(), link.node, res) == Handle(old(Memory()), old(link.node), r)
      ensures link.node.Valid()
    {
      hide HandleChunk, Upload, Node.Clear;
      if r.seqNumber > UINT8_MAX {
        return INVALID_VALUE;
      }
      var status;
      res, status := link.GetStackStatus();
      if res == OK && status == 0 {
        var stopped := link.StopStack();
        restartAfterLoad := true;
      }
      match r.content {
        case Chunk(_, _, _) =>
          res := HandleScratchpadChunk(r.content, r.seqNumber);
        case Whole(bytes) =>
          res := WpcUploadLocalScratchpad(link, bytes, r.seqNumber);
          currentSeq := INVALID_CURRENT_SEQ;
        case NoScratchpad =>
          ClearStaysValid(link.node);
          var code := link.ScratchpadClear();
          res := Convert(CLEAR_LUT, code);
          currentSeq := INVALID_CURRENT_SEQ;
      }
      if restartAfterLoad && currentSeq == INVALID_CURRENT_SEQ {
        var started := link.StartStack();
        restartAfterLoad := false;
        if res == OK && started != OK {
          res := started;
        }
      }
    }
  }

  lemma ClearStaysValid(n: Node)
    requires n.Valid()
    ensures n.Clear().0.Valid()
  {}

  // ------------------------------------------------------------------- runs

  datatype Served = Served(loader: Loader, node: Node, results: seq<AppRes>)

  /** A sequence of requests, one after the other. */
  function Serve(l: Loader, n: Node, rs: seq<Request>): (s: Served)
    requires n.Valid()
    ensures s.node.Valid() && |s.results| == |rs|
    decreases |rs|
  {
    if rs == [] then Served(l, n, [])
    else
      var o := Handle(l, n, rs[0]);
      var s := Serve(o.loader, o.node, rs[1..]);
      Served(s.loader, s.node, [o.res] + s.results)
  }

  ghost predicate AllOk(results: seq<AppRes>) {
    forall i :: 0 <= i < |results| ==> results[i] == OK
  }

  // ----------------------------------------------------- stopping and starting

  /** A start still owed means an upload in progress. */
  ghost predicate OwesOnlyWhileLoading(l: Loader) {
    l.restart ==> l.Loading()
  }

  /** Whatever is refused or lost, this holds after every request of every run. */
  lemma {:induction false} StartIsOwedOnlyWhileLoading(l: Loader, n: Node, rs: seq<Request>)
    requires n.Valid() && OwesOnlyWhileLoading(l)
    ensures OwesOnlyWhileLoading(Serve(l, n, rs).loader)
    decreases |rs|
  {
    if rs != [] {
      hide HandleContent, StopIfRunning, Node.Start;
      var o := Handle(l, n, rs[0]);
      StartIsOwedOnlyWhileLoading(o.loader, o.node, rs[1..]);
    }
  }

  /** The on/off state `was` is kept: it is the present one when no upload is in
      progress; during an upload the stack is off, and owed a start if it was on. */
  ghost predicate Keeps(was: bool, l: Loader, n: Node) {
    && n.powerFaults == []
    && if l.Loading() then !n.running && l.restart == was else n.running == was && !l.restart
  }

  lemma StopKeeps(was: bool, l: Loader, n: Node)
    requires n.Valid() && Keeps(was, l, n)
    ensures var (l', n') := StopIfRunning(l, n);
            && l'.currentSeq == l.currentSeq && n'.powerFaults == []
            && (n'.running ==> was && !l.Loading() && !l'.restart)
            && (!n'.running ==> l'.restart == was)
  {}

  /** Handling the content neither stops nor starts the stack, and begins no
      upload on a running one. */
  lemma ContentKeepsPower(l: Loader, n: Node, r: Request)
    requires n.Valid() && (n.running ==> !l.Loading()) && r.seqNumber <= UINT8_MAX
    ensures var o := HandleContent(l, n, r);
            && o.node.running == n.running && o.node.powerFaults == n.powerFaults
            && o.loader.restart == l.restart && (n.running ==> !o.loader.Loading())
  {
    hide LoadBlocks, Node.Valid;
    match r.content
    case Chunk(bytes, offset, total) =>
      ChunkKeepsPower(l, n, r.content, r.seqNumber);
    case Whole(bytes) =>
      StartKeepsValid(n, |bytes|, r.seqNumber);
      var n1 := StartUpdate(n, |bytes|, r.seqNumber).0;
      UploadKeepsPower(n1, bytes, 0);
    case NoScratchpad =>
  }

  lemma ChunkKeepsPower(l: Loader, n: Node, c: Content, seqNumber: nat)
    requires n.Valid() && c.Chunk? && (n.running ==> !l.Loading()) && seqNumber <= UINT8_MAX
    ensures var o := HandleChunk(l, n, c, seqNumber);
            && o.node.running == n.running && o.node.powerFaults == n.powerFaults
            && o.loader.restart == l.restart && (n.running ==> !o.loader.Loading())
  {
    hide UploadBlock, Node.Valid;
    if c.offset == 0 {
      var o := BeginChunk(l, n, c.total, seqNumber);
      UploadKeepsPower(o.node, c.bytes, c.offset);
    } else {
      UploadKeepsPower(n, c.bytes, c.offset);
    }
  }

  lemma UploadKeepsPower(n: Node, bytes: seq<byte>, start: nat)
    requires n.Valid()
    ensures UploadBlock(n, bytes, start).0.running == n.running
    ensures UploadBlock(n, bytes, start).0.powerFaults == n.powerFaults
  {
    hide LoadBlocks;
    var k := LoadBlocksAppends(n.Read().0, bytes, start);
  }

  /** If stops and starts succeed, the stack is in its prior on/off state whenever
      no upload is in progress, on every run and whatever else goes wrong. */
  lemma {:induction false} PriorStateIsRestored(was: bool, l: Loader, n: Node, rs: seq<Request>)
    requires n.Valid() && Keeps(was, l, n)
    ensures var s := Serve(l, n, rs); Keeps(was, s.loader, s.node)
    ensures var s := Serve(l, n, rs); !s.loader.Loading() ==> s.node.running == was
    decreases |rs|
  {
    if rs != [] {
      hide HandleContent, StopIfRunning, Node.Valid;
      var o := Handle(l, n, rs[0]);
      if rs[0].seqNumber <= UINT8_MAX {
        StopKeeps(was, l, n);
        var (l', n') := StopIfRunning(l, n);
        ContentKeepsPower(l', n', rs[0]);
      }
      PriorStateIsRestored(was, o.loader, o.node, rs[1..]);
    }
  }

  // ------------------------------------------------------------ the scratchpad

  function Concat(chunks: seq<seq<byte>>): seq<byte> {
    if chunks == [] then [] else chunks[0] + Concat(chunks[1..])
  }

  /** The requests for consecutive chunks from `offset` on. */
  function ChunkRequests(chunks: seq<seq<byte>>, offset: nat, total: nat, seqNumber: nat): (rs: seq<Request>)
    ensures |rs| == |chunks|
  {
    if chunks == [] then []
    else [Request(seqNumber, Chunk(chunks[0], offset, total))]
         + ChunkRequests(chunks[1..], offset + |chunks[0]|, total, seqNumber)
  }

  /** The node is being given scratchpad `seqNumber` and has got `data` of it. */
  ghost predicate Midway(l: Loader, n: Node, total: nat, seqNumber: nat, data: seq<byte>) {
    && l.currentSeq == seqNumber && n.updating && n.expected == total && n.seqNumber == seqNumber
    && n.image == data && |data| < total
  }

  /** ... or has got all of it. */
  ghost predicate GotSoFar(l: Loader, n: Node, total: nat, seqNumber: nat, data: seq<byte>) {
    if |data| == total then !l.Loading() && n.stored == Scratchpad(seqNumber, data)
    else Midway(l, n, total, seqNumber, data)
  }

  ghost predicate Sound(n: Node) {
    n.faults == [] && n.powerFaults == []
  }

  lemma LoadChunkAppends(l: Loader, n: Node, c: Content, seqNumber: nat)
    requires n.Valid() && c.Chunk? && c.bytes != [] && seqNumber <= UINT8_MAX
    requires c.offset + |c.bytes| <= c.total
    requires Midway(l, n, c.total, seqNumber, n.image) && c.offset == |n.image|
    ensures var o := LoadChunk(l, n, c, seqNumber);
            && (o.res == OK ==> GotSoFar(o.loader, o.node, c.total, seqNumber, n.image + c.bytes))
            && (Sound(n) ==> o.res == OK && Sound(o.node)) && !o.node.running
            && o.loader.restart == l.restart
  {
    hide LoadBlocks;
    var k := LoadBlocksAppends(n.Read().0, c.bytes, c.offset);
  }

  lemma BeginChunkStarts(l: Loader, n: Node, total: nat, seqNumber: nat)
    requires n.Valid() && seqNumber <= UINT8_MAX && total > 0
    ensures var o := BeginChunk(l, n, total, seqNumber);
            && (o.res == OK ==> Midway(o.loader, o.node, total, seqNumber, []))
            && (Sound(n) && !n.running ==> o.res == OK) && (Sound(n) ==> Sound(o.node))
            && o.loader.restart == l.restart
  {}

  lemma RestartKeepsScratchpad(o: Outcome, total: nat, seqNumber: nat, data: seq<byte>)
    requires o.node.Valid() && seqNumber <= UINT8_MAX
    ensures var o' := RestartIfDone(o);
            && (o'.res == OK ==> o.res == OK)
            && (GotSoFar(o.loader, o.node, total, seqNumber, data)
                ==> GotSoFar(o'.loader, o'.node, total, seqNumber, data))
            && (Sound(o.node) && !o.node.running && o.res == OK ==> o'.res == OK && Sound(o'.node))
  {}

  lemma StopIsHarmless(l: Loader, n: Node)
    requires n.Valid()
    ensures var (l', n') := StopIfRunning(l, n);
            && (Sound(n) ==> Sound(n') && !n'.running)
            && l'.currentSeq == l.currentSeq
            && (!n.running ==> n' == n.(faults := n'.faults))
  {}

  /** One chunk in its place: if the answer is OK the node has got it as well; on
      a sound node the answer is OK. */
  lemma ChunkIsAdded(l: Loader, n: Node, bytes: seq<byte>, total: nat, seqNumber: nat, data: seq<byte>)
    requires n.Valid() && bytes != [] && seqNumber <= UINT8_MAX && |data| + |bytes| <= total
    requires data == [] || Midway(l, n, total, seqNumber, data)
    ensures var o := Handle(l, n, Request(seqNumber, Chunk(bytes, |data|, total)));
            && (o.res == OK ==> GotSoFar(o.loader, o.node, total, seqNumber, data + bytes))
            && (Sound(n) ==> o.res == OK && Sound(o.node))
  {
    hide StopIfRunning, BeginChunk, LoadChunk, RestartIfDone, GotSoFar;
    var c := Chunk(bytes, |data|, total);
    StopIsHarmless(l, n);
    var (l', n') := StopIfRunning(l, n);
    var o := HandleChunk(l', n', c, seqNumber);
    if data == [] {
      BeginChunkStarts(l', n', total, seqNumber);
      var b := BeginChunk(l', n', total, seqNumber);
      assert [] + bytes == bytes;
      if b.res == OK { LoadChunkAppends(b.loader, b.node, c, seqNumber); }
    } else {
      LoadChunkAppends(l', n', c, seqNumber);
    }
    RestartKeepsScratchpad(o, total, seqNumber, data + bytes);
  }

  lemma {:induction false} RestIsAdded(l: Loader, n: Node, chunks: seq<seq<byte>>, total: nat, seqNumber: nat,
                                       data: seq<byte>)
    requires n.Valid() && seqNumber <= UINT8_MAX && |data| + |Concat(chunks)| == total
    requires forall i :: 0 <= i < |chunks| ==> chunks[i] != []
    requires if chunks == [] then GotSoFar(l, n, total, seqNumber, data)
             else data == [] || Midway(l, n, total, seqNumber, data)
    ensures var s := Serve(l, n, ChunkRequests(chunks, |data|, total, seqNumber));
            && (AllOk(s.results) ==> GotSoFar(s.loader, s.node, total, seqNumber, data + Concat(chunks)))
            && (Sound(n) ==> AllOk(s.results))
    decreases |chunks|
  {
    hide Handle, Midway;
    if chunks == [] {
      assert data + [] == data;
    } else {
      var rest := chunks[1..];
      assert Concat(chunks) == chunks[0] + Concat(rest);
      ChunkIsAdded(l, n, chunks[0], total, seqNumber, data);
      var o := Handle(l, n, Request(seqNumber, Chunk(chunks[0], |data|, total)));
      var rs := ChunkRequests(chunks, |data|, total, seqNumber);
      assert rs[1..] == ChunkRequests(rest, |data + chunks[0]|, total, seqNumber);
      assert (data + chunks[0]) + Concat(rest) == data + Concat(chunks);
      if rest != [] { ConcatGrows(rest); }
      if o.res == OK {
        RestIsAdded(o.loader, o.node, rest, total, seqNumber, data + chunks[0]);
      }
      var s := Serve(l, n, rs);
      assert s.results[0] == o.res;
      assert s.results[1..] == Serve(o.loader, o.node, rs[1..]).results;
    }
  }

  lemma ConcatGrows(chunks: seq<seq<byte>>)
    requires chunks != [] && chunks[0] != []
    ensures |Concat(chunks)| > 0
  {}

  /** In-order chunks of any sizes, uploaded from any state of handler and node:
      when every answer is OK the node holds exactly the scratchpad they make up,
      whatever its block maximum; and if nothing goes wrong every answer is OK. */
  lemma ChunksRebuildScratchpad(l: Loader, n: Node, chunks: seq<seq<byte>>, seqNumber: nat)
    requires n.Valid() && seqNumber <= UINT8_MAX
    requires chunks != [] && forall i :: 0 <= i < |chunks| ==> chunks[i] != []
    ensures var total := |Concat(chunks)|;
            var s := Serve(l, n, ChunkRequests(chunks, 0, total, seqNumber));
            && (AllOk(s.results) ==> s.node.stored == Scratchpad(seqNumber, Concat(chunks)) && !s.loader.Loading())
            && (Sound(n) ==> AllOk(s.results))
  {
    hide Serve, ChunkRequests, Concat, AllOk;
    RestIsAdded(l, n, chunks, |Concat(chunks)|, seqNumber, []);
    assert [] + Concat(chunks) == Concat(chunks);
  }

  // ------------------------------------------- whole scratchpads, and none

  /** The answer of a request whose content left `o`, and what is in the node. */
  lemma RestartKeepsStored(o: Outcome)
    requires o.node.Valid()
    ensures var o' := RestartIfDone(o);
            && o'.node.stored == o.node.stored && o'.loader.currentSeq == o.loader.currentSeq
            && (o'.res == OK ==> o.res == OK) && (o.res != OK ==> o'.res == o.res)
            && (Sound(o.node) && !o.node.running && o.res == OK ==> o'.res == OK && Sound(o'.node))
            && (o.loader.restart && !o.loader.Loading() && o'.res == OK ==> o'.node.running && !o'.loader.restart)
  {}

  /** An upload in one piece: success means that exactly these bytes are stored; it
      succeeds on a sound node that is stopped. */
  lemma UploadStores(n: Node, bytes: seq<byte>, seqNumber: nat)
    requires n.Valid()
    ensures var (n', res) := Upload(n, bytes, seqNumber);
            && (res == OK ==> n'.stored == Scratchpad(seqNumber, bytes))
            && (bytes == [] ==> res != OK)
            && n'.running == n.running
            && (Sound(n) ==> Sound(n') && (bytes != [] && !n.running ==> res == OK))
  {
    hide LoadBlocks, StartUpdate;
    StartKeepsValid(n, |bytes|, seqNumber);
    StartBegins(n, |bytes|, seqNumber);
    var n1 := StartUpdate(n, |bytes|, seqNumber).0;
    var k := LoadBlocksAppends(n1.Read().0, bytes, 0);
    assert [] + bytes == bytes;
  }

  lemma StartBegins(n: Node, len: nat, seqNumber: nat)
    ensures var (n', res) := StartUpdate(n, len, seqNumber);
            && n'.running == n.running
            && (res == OK ==>
                  len > 0 && n'.updating && n'.image == [] && n'.expected == len && n'.seqNumber == seqNumber)
            && (Sound(n) ==> Sound(n') && (res == OK <==> len > 0 && !n.running))
  {}

  /** A whole scratchpad: when the answer is OK it is in the node, and no upload is in
      progress in any case; on a sound node the answer is OK. */
  lemma WholeIsStored(l: Loader, n: Node, bytes: seq<byte>, seqNumber: nat)
    requires n.Valid() && seqNumber <= UINT8_MAX
    ensures var o := Handle(l, n, Request(seqNumber, Whole(bytes)));
            && (o.res == OK ==> bytes != [] && o.node.stored == Scratchpad(seqNumber, bytes))
            && !o.loader.Loading()
            && (Sound(n) && bytes != [] ==> o.res == OK && Sound(o.node))
  {
    hide StopIfRunning, Upload, RestartIfDone;
    StopIsHarmless(l, n);
    var (l', n') := StopIfRunning(l, n);
    UploadStores(n', bytes, seqNumber);
    RestartKeepsStored(HandleContent(l', n', Request(seqNumber, Whole(bytes))));
  }

  /** No scratchpad: when the answer is OK the node has none left. */
  lemma NoneIsStored(l: Loader, n: Node, seqNumber: nat)
    requires n.Valid() && seqNumber <= UINT8_MAX
    ensures var o := Handle(l, n, Request(seqNumber, NoScratchpad));
            && (o.res == OK ==> o.node.stored == Nothing)
            && !o.loader.Loading()
            && (Sound(n) ==> o.res == OK && Sound(o.node))
  {
    hide StopIfRunning, RestartIfDone;
    StopIsHarmless(l, n);
    var (l', n') := StopIfRunning(l, n);
    RestartKeepsStored(HandleContent(l', n', Request(seqNumber, NoScratchpad)));
  }

  /** A sequence number of more than 8 bits is refused, and nothing else happens. */
  lemma LargeSequenceNumber(l: Loader, n: Node, r: Request)
    requires n.Valid() && r.seqNumber > 255
    ensures Handle(l, n, r) == Outcome(l, n, INVALID_VALUE)
  {}

  /** A request owes a start when one was owed already, or when the stack is found
      running. */
  ghost predicate OwesStart(l: Loader, n: Node) {
    l.restart || (n.running && (n.faults == [] || n.faults[0].NoFault?))
  }

  /** When such a request is answered OK and no upload is in progress after it, the
      stack was started; during an upload the start is still owed. */
  lemma OkMeansStarted(l: Loader, n: Node, r: Request)
    requires n.Valid() && OwesStart(l, n) && Handle(l, n, r).res == OK
    ensures var o := Handle(l, n, r);
            if o.loader.Loading() then o.loader.restart else o.node.running && !o.loader.restart
  {
    hide HandleContent, RestartIfDone;
    StopOwes(l, n);
    var (l', n') := StopIfRunning(l, n);
    ContentKeepsOwing(l', n', r);
    RestartKeepsStored(HandleContent(l', n', r));
    RestartWaits(HandleContent(l', n', r));
  }

  lemma StopOwes(l: Loader, n: Node)
    requires n.Valid() && OwesStart(l, n)
    ensures StopIfRunning(l, n).0.restart
  {}

  lemma ContentKeepsOwing(l: Loader, n: Node, r: Request)
    requires n.Valid()
    ensures HandleContent(l, n, r).loader.restart == l.restart
  {
    hide Upload, UploadBlock, StartUpdate, Node.Clear;
  }

  lemma RestartWaits(o: Outcome)
    requires o.node.Valid()
    ensures o.loader.Loading() ==> RestartIfDone(o) == o
  {}

  /** An upload is over with the accepted chunk that ends at the total it names, and
      with no other accepted one. */
  lemma LastChunkEnds(l: Loader, n: Node, bytes: seq<byte>, offset: nat, total: nat, seqNumber: nat)
    requires n.Valid() && seqNumber <= UINT8_MAX
    ensures var o := Handle(l, n, Request(seqNumber, Chunk(bytes, offset, total)));
            o.res == OK ==>
              if offset + |bytes| == total then !o.loader.Loading() else o.loader.currentSeq == seqNumber
  {
    hide StopIfRunning, UploadBlock, StartUpdate, RestartIfDone;
    var (l', n') := StopIfRunning(l, n);
    RestartKeepsStored(HandleContent(l', n', Request(seqNumber, Chunk(bytes, offset, total))));
  }

  // ------------------------------------------------------ what goes wrong

  /** A stack whose status is not to be had is not stopped. */
  lemma UnreadStatusStopsNothing(l: Loader, n: Node, r: Request)
    requires n.Valid() && n.running && !l.Loading() && n.faults != [] && !n.faults[0].NoFault?
    ensures var o := Handle(l, n, r); o.node.running && (o.loader.restart ==> l.restart)
  {
    hide HandleContent;
    if r.seqNumber <= UINT8_MAX {
      var (l', n') := StopIfRunning(l, n);
      ContentKeepsPower(l', n', r);
    }
  }

  /** A stop that is refused or lost leaves the stack running, and the node refuses
      everything: the answer says so, and what is stored stays. */
  lemma RunningNodeRefuses(l: Loader, n: Node, r: Request)
    requires n.Valid() && n.running && n.faults == [] && n.powerFaults != [] && !l.Loading() && r.seqNumber <= UINT8_MAX
    requires n.powerFaults[0].Refused? || n.powerFaults[0].Lost?
    requires r.content.Chunk? ==> r.content.offset == 0
    ensures var o := Handle(l, n, r); o.res == STACK_NOT_STOPPED && o.node.stored == n.stored && !o.loader.Loading()
  {
    hide LoadBlocks, RestartIfDone;
    var (l', n') := StopIfRunning(l, n);
    var o := HandleContent(l', n', r);
    assert o.res == STACK_NOT_STOPPED;
    RestartKeepsStored(o);
  }

  /** A later chunk of another upload than the one in progress is refused, and the
      upload in progress is not disturbed. */
  lemma StrayChunk(l: Loader, n: Node, bytes: seq<byte>, offset: nat, total: nat, seqNumber: nat)
    requires n.Valid() && seqNumber <= UINT8_MAX && offset > 0 && seqNumber != l.currentSeq
    ensures var o := Handle(l, n, Request(seqNumber, Chunk(bytes, offset, total)));
            && o.res == INVALID_SEQ && o.loader.currentSeq == l.currentSeq && o.node.stored == n.stored
            && (l.Loading() && !n.running ==> o.node == n.(faults := o.node.faults))
  {
    hide RestartIfDone;
    StopIsHarmless(l, n);
    var (l', n') := StopIfRunning(l, n);
    StopKeepsStored(l, n);
    RestartKeepsStored(Outcome(l', n', INVALID_SEQ));
    RestartWaits(Outcome(l', n', INVALID_SEQ));
  }

  lemma StopKeepsStored(l: Loader, n: Node)
    requires n.Valid()
    ensures StopIfRunning(l, n).1.stored == n.stored
  {}

  /** A chunk of the upload in progress that is out of place or too long is refused
      with the reason, and what the node has got so far stays. */
  lemma MisplacedChunk(l: Loader, n: Node, bytes: seq<byte>, offset: nat, total: nat, seqNumber: nat)
    requires n.Valid() && Sound(n) && seqNumber <= UINT8_MAX && bytes != [] && offset > 0
    requires Midway(l, n, total, seqNumber, n.image) && (offset != |n.image| || |n.image| + |bytes| > total)
    requires |bytes| <= n.blockMax
    ensures var o := Handle(l, n, Request(seqNumber, Chunk(bytes, offset, total)));
            && o.res == (if offset != |n.image| then INVALID_START_ADDRESS else INVALID_NUMBER_OF_BYTES)
            && o.loader == l && o.node == n
  {
    hide RestartIfDone;
    assert bytes[..|bytes|] == bytes;
    RestartWaits(HandleContent(l, n, Request(seqNumber, Chunk(bytes, offset, total))));
  }

  /** On a sound node an empty scratchpad is an invalid value. */
  lemma EmptyScratchpad(l: Loader, n: Node, seqNumber: nat)
    requires n.Valid() && Sound(n) && seqNumber <= UINT8_MAX
    ensures Handle(l, n, Request(seqNumber, Whole([]))).res == INVALID_VALUE
  {
    hide StopIfRunning, RestartIfDone, UploadBlock;
    StopIsHarmless(l, n);
    var (l', n') := StopIfRunning(l, n);
    RestartKeepsStored(HandleContent(l', n', Request(seqNumber, Whole([]))));
  }
}
