/** Requests to the node and the search for their confirms: matching by primitive
    and 8-bit frame id, at most 50 mismatches, at most 3 resends. */
module RequestEngine {
  import opened Common

  const MAX_CONFIRM_ATTEMPT: nat := 50
  const MAX_CRC_REQUEST_ERROR_RETRIES: nat := 3

  datatype Request = Request(primitive: nat, payload: seq<nat>)

  /** A request as it goes over the line. */
  datatype Copy = Copy(request: Request, frameId: nat)

  /** What one receive call gives. */
  datatype Received = Frame(primitive: nat, frameId: nat, payload: seq<nat>) | Error(code: int)

  /** How a call ends.  Propagated is a receive error passed on. */
  datatype Result = Confirm(frame: Received) | SendFailed | SyncLost | Propagated(code: int)

  function Code(r: Result): int {
    match r
    case Confirm(_) => 0
    case SendFailed => GEN_ERROR
    case SyncLost => SYNC_ERROR
    case Propagated(code) => code
  }

  /** The 8-bit frame id of the nth request. */
  function FrameId(n: nat): (id: nat)
    ensures id < 256
  {
    n % 256
  }

  predicate Matches(r: Received, c: Copy) {
    r.Frame? && r.primitive == c.request.primitive + SAP_CONFIRM_OFFSET && r.frameId == c.frameId
  }

  predicate Rejection(r: Received) {
    r == Error(WRONG_CRC_FROM_HOST)
  }

  function Mismatches(got: seq<Received>, c: Copy): nat {
    if got == [] then 0
    else Mismatches(got[..|got| - 1], c)
         + (var r := got[|got| - 1]; if r.Frame? && !Matches(r, c) then 1 else 0)
  }

  function Rejections(got: seq<Received>): nat {
    if got == [] then 0
    else Rejections(got[..|got| - 1]) + if Rejection(got[|got| - 1]) then 1 else 0
  }

  /** One call: what it sent, which sends succeeded, what it got back, how it ended. */
  datatype Call = Call(copy: Copy, sends: seq<bool>, got: seq<Received>, result: Result)

  /** After these answers and sends the call is still looking for its confirm. */
  ghost predicate Searching(c: Copy, sends: seq<bool>, got: seq<Received>) {
    && |sends| == 1 + Rejections(got) && (forall i :: 0 <= i < |sends| ==> sends[i])
    && (forall i :: 0 <= i < |got| ==> !Matches(got[i], c) && (got[i].Frame? || Rejection(got[i])))
    && Mismatches(got, c) < MAX_CONFIRM_ATTEMPT
    && Rejections(got) <= MAX_CRC_REQUEST_ERROR_RETRIES
  }

  /** The step on which a call ends, given that it was still searching before. */
  ghost predicate Decides(c: Copy, last: Received, before: seq<Received>, resend: seq<bool>, result: Result) {
    if Matches(last, c) then
      resend == [] && result == Confirm(last)
    else if Rejection(last) && Rejections(before) < MAX_CRC_REQUEST_ERROR_RETRIES then
      resend == [false] && result == SendFailed
    else if last.Error? then
      resend == [] && result == Propagated(last.code)
    else
      resend == [] && result == SyncLost && Mismatches(before, c) == MAX_CONFIRM_ATTEMPT - 1
  }

  /** A call as the code makes it. */
  ghost predicate Legal(call: Call) {
    if call.got == [] then
      call.sends == [false] && call.result == SendFailed
    else
      var n := |call.got| - 1;
      var before := call.got[..n];
      var k := 1 + Rejections(before);
      && k <= |call.sends|
      && Searching(call.copy, call.sends[..k], before)
      && Decides(call.copy, call.got[n], before, call.sends[k..], call.result)
  }

  lemma CountsStep(got: seq<Received>, r: Received, c: Copy)
    ensures Mismatches(got + [r], c) == Mismatches(got, c) + if r.Frame? && !Matches(r, c) then 1 else 0
    ensures Rejections(got + [r]) == Rejections(got) + if Rejection(r) then 1 else 0
  {
    assert (got + [r])[..|got|] == got;
  }

  /** A searching call either goes on with the next read or ends with it. */
  lemma GoesOn(c: Copy, sends: seq<bool>, got: seq<Received>, r: Received, resend: seq<bool>)
    requires Searching(c, sends, got) && !Matches(r, c)
    requires r.Frame? ==> resend == [] && Mismatches(got, c) < MAX_CONFIRM_ATTEMPT - 1
    requires r.Error? ==> Rejection(r) && resend == [true] && Rejections(got) < MAX_CRC_REQUEST_ERROR_RETRIES
    ensures Searching(c, sends + resend, got + [r])
  {
    hide Mismatches, Rejections, Matches;
    CountsStep(got, r, c);
  }

  lemma Ends(c: Copy, sends: seq<bool>, got: seq<Received>, r: Received, resend: seq<bool>, result: Result)
    requires Searching(c, sends, got) && Decides(c, r, got, resend, result)
    ensures Legal(Call(c, sends + resend, got + [r], result))
  {
    hide Searching, Decides, Mismatches, Rejections, Legal;
    SearchingSends(c, sends, got);
    var call := Call(c, sends + resend, got + [r], result);
    assert call.got[..|got|] == got && call.got[|got|] == r;
    assert call.sends[..|sends|] == sends && call.sends[|sends|..] == resend;
    LegalFromParts(call, |got|, |sends|);
  }

  lemma LegalFromParts(call: Call, n: nat, k: nat)
    requires |call.got| == n + 1 && k <= |call.sends| && k == 1 + Rejections(call.got[..n])
    requires Searching(call.copy, call.sends[..k], call.got[..n])
    requires Decides(call.copy, call.got[n], call.got[..n], call.sends[k..], call.result)
    ensures Legal(call)
  {
    hide Searching, Decides, Mismatches, Rejections;
  }

  lemma SearchingSends(c: Copy, sends: seq<bool>, got: seq<Received>)
    requires Searching(c, sends, got)
    ensures |sends| == 1 + Rejections(got)
  {}

  /** The serial line of one run: what each receive and each send will give, and
      the copies that were put on it.  A line without further input is silent. */
  class Line {
    const incoming: seq<Received>
    const sendable: seq<bool>
    var position: nat
    var copies: seq<Copy>

    constructor (incoming: seq<Received>, sendable: seq<bool>)
      ensures this.incoming == incoming && this.sendable == sendable && position == 0 && copies == []
    {
      this.incoming, this.sendable, position, copies := incoming, sendable, 0, [];
    }

    function Next(): Received
      reads this
    {
      if position < |incoming| then incoming[position] else Error(TIMEOUT_ERROR)
    }

    method Send(c: Copy) returns (ok: bool)
      modifies `copies
      ensures copies == old(copies) + [c]
      ensures ok <==> (|old(copies)| < |sendable| ==> sendable[|old(copies)|])
    {
      ok := |copies| >= |sendable| || sendable[|copies|];
      copies := copies + [c];
    }

    method Receive() returns (r: Received)
      modifies `position
      ensures r == old(Next()) && position == old(position) + 1
    {
      r := Next();
      position := position + 1;
    }

    /** The n answers that start at `from`. */
    ghost function Reads(from: nat, n: nat): (s: seq<Received>)
      ensures |s| == n
    {
      seq(n, i requires 0 <= i < n => if from + i < |incoming| then incoming[from + i] else Error(TIMEOUT_ERROR))
    }

    ghost function Outcomes(from: nat, n: nat): (s: seq<bool>)
      ensures |s| == n
    {
      seq(n, i requires 0 <= i < n => from + i >= |sendable| || sendable[from + i])
    }
  }

  function Repeat(c: Copy, n: nat): (s: seq<Copy>)
    ensures |s| == n && forall i :: 0 <= i < n ==> s[i] == c
  {
    if n == 0 then [] else Repeat(c, n - 1) + [c]
  }

  class Host {
    var frameId: nat
    const line: Line
    ghost var calls: seq<Call>

    constructor (line: Line)
      ensures Valid() && calls == [] && this.line == line
    {
      frameId, this.line, calls := 0, line, [];
    }

    ghost predicate Valid()
      reads this
    {
      frameId == FrameId(|calls|) && Run(calls)
    }

    /** The call that is recorded is the one the line saw: what it got is what
        the line gives next, the copies sent are all the same, and how it ended
        follows from them. */
    method SendRequestLocked(request: Request) returns (result: Result)
      requires Valid()
      modifies this, line
      ensures Valid() && |calls| == |old(calls)| + 1 && calls[..|old(calls)|] == old(calls)
      ensures var call := calls[|old(calls)|];
              && call.copy == Copy(request, FrameId(|old(calls)|)) && call.result == result
              && call.got == line.Reads(old(line.position), |call.got|)
              && call.sends == line.Outcomes(|old(line.copies)|, |call.sends|)
              && line.position == old(line.position) + |call.got|
              && line.copies == old(line.copies) + Repeat(call.copy, |call.sends|)
    {
      hide Legal, Run, FrameId;
      var copy := Copy(request, frameId);
      FrameIdGoesOn(|calls|);
      frameId := (frameId + 1) % 256;
      ghost var got: seq<Received>, sends: seq<bool>;
      result, got, sends := Search(copy);
      RunGoesOn(calls, Call(copy, sends, got, result));
      calls := calls + [Call(copy, sends, got, result)];
    }

    method Search(copy: Copy) returns (result: Result, ghost got: seq<Received>, ghost sends: seq<bool>)
      modifies line
      ensures Legal(Call(copy, sends, got, result))
      ensures got == line.Reads(old(line.position), |got|)
      ensures sends == line.Outcomes(|old(line.copies)|, |sends|)
      ensures line.position == old(line.position) + |got|
      ensures line.copies == old(line.copies) + Repeat(copy, |sends|)
    {
      hide Mismatches, Rejections, Legal, Searching, Decides;
      var attempt, crcRequestRetries := 0, 0;
      var ok := line.Send(copy);
      got, sends := [], [ok];
      if !ok {
        LegalNoSend(copy);
        return SendFailed, got, sends;
      }
      StartsSearching(copy);
      var r := Error(TIMEOUT_ERROR);
      while attempt < MAX_CONFIRM_ATTEMPT
        invariant attempt <= MAX_CONFIRM_ATTEMPT && crcRequestRetries <= MAX_CRC_REQUEST_ERROR_RETRIES
        invariant attempt == Mismatches(got, copy) && crcRequestRetries == Rejections(got)
        invariant attempt < MAX_CONFIRM_ATTEMPT ==> Searching(copy, sends, got)
        invariant attempt == MAX_CONFIRM_ATTEMPT ==> Legal(Call(copy, sends, got, SyncLost))
        invariant got == line.Reads(old(line.position), |got|)
        invariant sends == line.Outcomes(|old(line.copies)|, |sends|)
        invariant line.position == old(line.position) + |got|
        invariant line.copies == old(line.copies) + Repeat(copy, |sends|)
        decreases MAX_CONFIRM_ATTEMPT - attempt + (MAX_CRC_REQUEST_ERROR_RETRIES - crcRequestRetries)
      {
        r := line.Receive();
        CountsStep(got, r, copy);
        ghost var before := got;
        got := got + [r];
        assert sends + [] == sends;
        if r.Error? {
          if r.code == WRONG_CRC_FROM_HOST {
            if crcRequestRetries < MAX_CRC_REQUEST_ERROR_RETRIES {
              crcRequestRetries := crcRequestRetries + 1;
              ok := line.Send(copy);
              if !ok {
                DecidesSendFailed(copy, r, before);
                Ends(copy, sends, before, r, [false], SendFailed);
                return SendFailed, got, sends + [false];
              }
              GoesOn(copy, sends, before, r, [true]);
              sends := sends + [true];
              continue;
            }
          }
          DecidesPropagated(copy, r, before);
          Ends(copy, sends, before, r, [], Propagated(r.code));
          return Propagated(r.code), got, sends;
        }
        if r.primitive != copy.request.primitive + SAP_CONFIRM_OFFSET || r.frameId != copy.frameId {
          attempt := attempt + 1;
          if attempt < MAX_CONFIRM_ATTEMPT {
            GoesOn(copy, sends, before, r, []);
          } else {
            DecidesSyncLost(copy, r, before);
            Ends(copy, sends, before, r, [], SyncLost);
          }
          continue;
        }
        DecidesConfirm(copy, r, before);
        Ends(copy, sends, before, r, [], Confirm(r));
        break;
      }
      if attempt == MAX_CONFIRM_ATTEMPT {
        return SyncLost, got, sends;
      }
      return Confirm(r), got, sends;
    }
  }

  lemma FrameIdGoesOn(n: nat)
    ensures FrameId(n + 1) == (FrameId(n) + 1) % 256
  {}

  lemma RunGoesOn(calls: seq<Call>, call: Call)
    requires Run(calls) && Legal(call) && call.copy.frameId == FrameId(|calls|)
    ensures Run(calls + [call]) && (calls + [call])[..|calls|] == calls && (calls + [call])[|calls|] == call
  {
    hide Legal, FrameId;
  }

  lemma LegalNoSend(c: Copy)
    ensures Legal(Call(c, [false], [], SendFailed))
  {}

  lemma StartsSearching(c: Copy)
    ensures Searching(c, [true], []) && Mismatches([], c) == 0 && Rejections([]) == 0
  {}

  lemma DecidesSendFailed(c: Copy, r: Received, before: seq<Received>)
    requires Rejection(r) && Rejections(before) < MAX_CRC_REQUEST_ERROR_RETRIES
    ensures Decides(c, r, before, [false], SendFailed)
  {}

  lemma DecidesPropagated(c: Copy, r: Received, before: seq<Received>)
    requires r.Error? && (Rejection(r) ==> Rejections(before) >= MAX_CRC_REQUEST_ERROR_RETRIES)
    ensures Decides(c, r, before, [], Propagated(r.code))
  {}

  lemma DecidesSyncLost(c: Copy, r: Received, before: seq<Received>)
    requires r.Frame? && !Matches(r, c) && Mismatches(before, c) == MAX_CONFIRM_ATTEMPT - 1
    ensures Decides(c, r, before, [], SyncLost)
  {}

  lemma DecidesConfirm(c: Copy, r: Received, before: seq<Received>)
    requires Matches(r, c)
    ensures Decides(c, r, before, [], Confirm(r))
  {}

  // ------------------------------------------------------------ single calls

  /** The calls made since the start, with their frame ids. */
  ghost predicate Run(calls: seq<Call>) {
    forall n :: 0 <= n < |calls| ==> Legal(calls[n]) && calls[n].copy.frameId == FrameId(n)
  }

  /** Synchronisation is given up exactly after 50 mismatching replies; a confirm
      is the first matching reply; at most 4 copies go out and 53 replies are read. */
  lemma HowCallsEnd(call: Call)
    requires Legal(call)
    ensures call.result == SyncLost <==> Mismatches(call.got, call.copy) == MAX_CONFIRM_ATTEMPT
    ensures call.result.Confirm? <==> exists i :: 0 <= i < |call.got| && Matches(call.got[i], call.copy)
    ensures call.result.Confirm? ==> call.got != [] && call.result.frame == call.got[|call.got| - 1]
    ensures call.result.Confirm? ==> forall i :: 0 <= i < |call.got| - 1 ==> !Matches(call.got[i], call.copy)
    ensures 1 <= |call.sends| <= 1 + MAX_CRC_REQUEST_ERROR_RETRIES
    ensures |call.got| <= MAX_CONFIRM_ATTEMPT + MAX_CRC_REQUEST_ERROR_RETRIES
  {
    if call.got != [] {
      var n := |call.got| - 1;
      var before := call.got[..n];
      assert forall i :: 0 <= i < n ==> before[i] == call.got[i];
      ReadsAreCounted(call.copy, before);
      if call.result.Confirm? {
        assert Matches(call.got[n], call.copy);
      }
    }
  }

  /** What the caller is told: -1 when a send failed, the error when one was received
      last, -3 after the last mismatch, and 0 with the confirm. */
  lemma CodeMeans(call: Call)
    requires Legal(call)
    ensures Code(call.result)
            == if false in call.sends then -1
               else if call.got[|call.got| - 1].Error? then call.got[|call.got| - 1].code
               else if Matches(call.got[|call.got| - 1], call.copy) then 0
               else -3
  {
    hide Mismatches, Rejections;
    if call.got != [] {
      var n := |call.got| - 1;
      SearchingSends(call.copy, call.sends[..1 + Rejections(call.got[..n])], call.got[..n]);
      assert call.sends == call.sends[..1 + Rejections(call.got[..n])] + call.sends[1 + Rejections(call.got[..n])..];
    }
  }

  /** While searching, every reply is a mismatch or a rejection. */
  lemma {:induction false} ReadsAreCounted(c: Copy, got: seq<Received>)
    requires forall i :: 0 <= i < |got| ==> !Matches(got[i], c) && (got[i].Frame? || Rejection(got[i]))
    ensures |got| == Mismatches(got, c) + Rejections(got)
  {
    if got != [] {
      ReadsAreCounted(c, got[..|got| - 1]);
    }
  }

  /** A copy is sent again exactly when the node rejected the one before it. */
  lemma OneResendPerRejection(call: Call)
    requires Legal(call)
    ensures |call.sends| == 1 + if Rejections(call.got) < MAX_CRC_REQUEST_ERROR_RETRIES then Rejections(call.got)
                                else MAX_CRC_REQUEST_ERROR_RETRIES
    ensures Rejections(call.got) <= MAX_CRC_REQUEST_ERROR_RETRIES + 1
    ensures Rejections(call.got) == MAX_CRC_REQUEST_ERROR_RETRIES + 1
            <==> call.result == Propagated(WRONG_CRC_FROM_HOST)
  {}

  // ------------------------------------------------------ calls and the node

  /** A call with what happened at the other end: for each reply the number of the
      request it answers, or -1 for a frame that is no confirm; for each rejection
      the copy it is about; for each copy whether the node executed it. */
  datatype Exchange = Exchange(call: Call, origin: seq<int>, about: seq<nat>, executed: seq<bool>)

  function Calls(run: seq<Exchange>): (calls: seq<Call>)
    ensures |calls| == |run|
  {
    seq(|run|, i requires 0 <= i < |run| => run[i].call)
  }

  ghost predicate Sized(run: seq<Exchange>) {
    forall n :: 0 <= n < |run| ==>
      && |run[n].origin| == |run[n].about| == |run[n].call.got|
      && |run[n].executed| == |run[n].call.sends|
  }

  /** Frames that answer no request are no confirms; the others carry the frame id
      of a request that was made and that the node executed. */
  ghost predicate Genuine(run: seq<Exchange>)
    requires Sized(run)
  {
    forall n, i :: 0 <= n < |run| && 0 <= i < |run[n].origin| && run[n].call.got[i].Frame? ==>
      var m := run[n].origin[i];
      if m < 0 then run[n].call.got[i].primitive < SAP_CONFIRM_OFFSET
      else m <= n && run[n].call.got[i].frameId == FrameId(m) && true in run[m].executed
  }

  /** Replies come in the order of their requests, at most one for each. */
  ghost predicate Fifo(run: seq<Exchange>)
    requires Sized(run)
  {
    forall n, n', i, i' ::
      && 0 <= n <= n' < |run| && 0 <= i < |run[n].origin| && 0 <= i' < |run[n'].origin|
      && (n < n' || i < i')
      && run[n].call.got[i].Frame? && run[n'].call.got[i'].Frame?
      && 0 <= run[n].origin[i] && 0 <= run[n'].origin[i'] ==>
      run[n].origin[i] < run[n'].origin[i']
  }

  ghost predicate World(run: seq<Exchange>) {
    Run(Calls(run)) && Sized(run) && Genuine(run) && Fifo(run)
  }

  predicate Succeeded(e: Exchange) {
    e.call.result.Confirm?
  }

  /** Among the 256 calls before the nth one succeeded, unless there are fewer. */
  ghost predicate NoLongOutage(run: seq<Exchange>, n: nat) {
    n < 256 || exists s :: n - 256 <= s < n && s < |run| && Succeeded(run[s])
  }

  /** The request that the confirm of the nth call answers. */
  ghost predicate Answers(run: seq<Exchange>, n: nat, m: int) {
    && n < |run| && Succeeded(run[n])
    && 0 < |run[n].call.got| == |run[n].origin|
    && run[n].call.result.frame == run[n].call.got[|run[n].call.got| - 1]
    && run[n].origin[|run[n].origin| - 1] == m
  }

  /** Less than 256 requests apart, the 8-bit frame id tells requests apart. */
  lemma FrameIdsTell(m: nat, n: nat)
    requires m <= n < m + 256
    ensures FrameId(m) == FrameId(n) <==> m == n
  {}

  /** A confirm answers a request already made, with the frame id of this call. */
  lemma ConfirmHasOrigin(run: seq<Exchange>, n: nat) returns (m: nat)
    requires World(run) && n < |run| && Succeeded(run[n])
    ensures Answers(run, n, m) && m <= n && FrameId(m) == FrameId(n) && true in run[m].executed
  {
    hide Mismatches, Rejections, Legal, FrameId, Fifo;
    var call := Calls(run)[n];
    HowCallsEnd(call);
    var i := |call.got| - 1;
    assert Matches(call.got[i], call.copy) by {
      var j :| 0 <= j < |call.got| && Matches(call.got[j], call.copy);
    }
    m := run[n].origin[i];
  }

  /** The confirm is the reply to this very request exactly when it is the reply
      to one of the last 256 requests. */
  lemma OwnReplyIffRecent(run: seq<Exchange>, n: nat, m: int)
    requires World(run) && Answers(run, n, m)
    ensures m == n <==> n - m < 256
  {
    hide World, FrameId;
    var m' := ConfirmHasOrigin(run, n);
    OriginIsUnique(run, n, m, m');
    if n - m < 256 { FrameIdsTell(m', n); }
  }

  lemma OriginIsUnique(run: seq<Exchange>, n: nat, m: int, m': int)
    requires Answers(run, n, m) && Answers(run, n, m')
    ensures m == m'
  {}

  lemma LaterConfirmIsNewer(run: seq<Exchange>, s: nat, n: nat, m: int, m': int)
    requires World(run) && s < n && Answers(run, s, m) && Answers(run, n, m') && 0 <= m && 0 <= m'
    ensures m < m'
  {
    hide Run, Genuine;
    assert run[s].call.got[|run[s].call.got| - 1].Frame? by { ConfirmIsFrame(run, s); }
    assert run[n].call.got[|run[n].call.got| - 1].Frame? by { ConfirmIsFrame(run, n); }
  }

  lemma ConfirmIsFrame(run: seq<Exchange>, n: nat)
    requires World(run) && n < |run| && Succeeded(run[n])
    ensures run[n].call.got != [] && run[n].call.got[|run[n].call.got| - 1].Frame?
  {
    hide Mismatches, Rejections, Legal, FrameId, Fifo, Genuine;
    var call := Calls(run)[n];
    HowCallsEnd(call);
  }

  /** However frame ids wrap around, as long as no 256 calls in a row fail, every
      call that succeeds returns the reply to its own request, which the node has
      executed. */
  lemma {:induction false} OwnReply(run: seq<Exchange>, n: nat)
    requires World(run) && n < |run| && Succeeded(run[n])
    requires forall k: nat :: k <= n ==> NoLongOutage(run, k)
    ensures Answers(run, n, n) && true in run[n].executed
  {
    hide World, Answers, FrameId;
    var m := ConfirmHasOrigin(run, n);
    if n >= 256 {
      assert NoLongOutage(run, n);
      var s: int :| n - 256 <= s < n && s < |run| && Succeeded(run[s]);
      OwnReply(run, s);
      LaterConfirmIsNewer(run, s, n, s, m);
    }
    OwnReplyIffRecent(run, n, m);
  }

  /** No reply to request m or a later one has been read. */
  ghost predicate Unanswered(run: seq<Exchange>, m: nat)
    requires Sized(run)
  {
    forall n, i :: 0 <= n < |run| && 0 <= i < |run[n].origin| && run[n].call.got[i].Frame? ==> run[n].origin[i] < m
  }

  /** A late reply to request m is taken for one to request m + 256, made like it. */
  function LateReply(run: seq<Exchange>, m: nat): Exchange
    requires m < |run|
  {
    var request := run[m].call.copy.request;
    var reply := Frame(request.primitive + SAP_CONFIRM_OFFSET, FrameId(m), []);
    Exchange(Call(Copy(request, FrameId(m + 256)), [true], [reply], Confirm(reply)), [m], [0], [false])
  }

  /** Whatever run has led to it: when the last 256 calls all failed and the node
      executed the first of them without its reply having been read, that reply
      can still come, and the next call can take it for its own. */
  lemma OutageConfuses(run: seq<Exchange>, m: nat)
    requires World(run) && |run| == m + 256 && !NoLongOutage(run, m + 256)
    requires true in run[m].executed && Unanswered(run, m)
    ensures var e := LateReply(run, m); World(run + [e]) && Answers(run + [e], m + 256, m)
  {
    hide World, Legal, NoLongOutage;
    var e := LateReply(run, m);
    var longer := run + [e];
    WorldMeans(run);
    LateReplyIsLegal(run, m);
    assert Run(Calls(longer)) by {
      hide LateReply, FrameId;
      forall n | 0 <= n < |longer|
        ensures Legal(Calls(longer)[n]) && Calls(longer)[n].copy.frameId == FrameId(n)
      {
        if n < |run| { assert Calls(run)[n] == Calls(longer)[n]; }
      }
    }
    assert Sized(longer);
    assert Genuine(longer) by { LateReplyIsGenuine(run, m); }
    assert Fifo(longer) by { LateReplyIsFifo(run, m); }
    WorldFromParts(longer);
  }

  lemma WorldMeans(run: seq<Exchange>)
    requires World(run)
    ensures Run(Calls(run)) && Sized(run) && Genuine(run) && Fifo(run)
  {}

  lemma WorldFromParts(run: seq<Exchange>)
    requires Run(Calls(run)) && Sized(run) && Genuine(run) && Fifo(run)
    ensures World(run)
  {}

  lemma LateReplyIsLegal(run: seq<Exchange>, m: nat)
    requires m < |run|
    ensures Legal(LateReply(run, m).call) && LateReply(run, m).call.copy.frameId == FrameId(m + 256)
  {
    hide Legal, Searching, Mismatches, Rejections;
    var call := LateReply(run, m).call;
    StartsSearching(call.copy);
    DecidesConfirm(call.copy, call.got[0], []);
    Ends(call.copy, [true], [], call.got[0], [], call.result);
    assert [true] + [] == call.sends && [] + [call.got[0]] == call.got;
  }

  lemma LateReplyIsGenuine(run: seq<Exchange>, m: nat)
    requires Sized(run) && Genuine(run) && m < |run| && true in run[m].executed
    ensures Genuine(run + [LateReply(run, m)])
  {
    hide FrameId;
  }

  lemma LateReplyIsFifo(run: seq<Exchange>, m: nat)
    requires Sized(run) && Fifo(run) && m < |run| && Unanswered(run, m)
    ensures Fifo(run + [LateReply(run, m)])
  {
    hide FrameId;
  }

  /** There are such runs: request 0 is executed, and 256 calls time out. */
  function TimedOut(request: Request, n: nat): Exchange {
    Exchange(Call(Copy(request, FrameId(n)), [true], [Error(TIMEOUT_ERROR)], Propagated(TIMEOUT_ERROR)),
             [-1], [0], [n == 0])
  }

  lemma OutagesHappen(request: Request) returns (run: seq<Exchange>)
    ensures World(run) && |run| == 256 && !NoLongOutage(run, 256)
    ensures true in run[0].executed && Unanswered(run, 0)
  {
    hide Legal, FrameId;
    run := seq(256, n requires 0 <= n < 256 => TimedOut(request, n));
    forall n: nat | n < 256
      ensures Legal(Calls(run)[n])
    {
      TimedOutIsLegal(request, n);
    }
    assert run[0].executed[0];
  }

  lemma TimedOutIsLegal(request: Request, n: nat)
    ensures Legal(TimedOut(request, n).call)
  {
    hide Legal, Searching, Mismatches, Rejections, FrameId;
    var call := TimedOut(request, n).call;
    StartsSearching(call.copy);
    DecidesPropagated(call.copy, call.got[0], []);
    Ends(call.copy, [true], [], call.got[0], [], call.result);
    assert [true] + [] == call.sends && [] + [call.got[0]] == call.got;
  }

  // ------------------------------------------------------ at most one execution

  function Executions(executed: seq<bool>): nat {
    if executed == [] then 0
    else Executions(executed[..|executed| - 1]) + if executed[|executed| - 1] then 1 else 0
  }

  /** Each rejection is about a copy of this request that was already sent, no two
      about the same one, and that copy was not executed; nor is one whose sending
      failed. */
  ghost predicate HonestRejections(e: Exchange) {
    && |e.about| == |e.call.got| && |e.executed| == |e.call.sends|
    && (forall i :: 0 <= i < |e.about| && Rejection(e.call.got[i]) ==>
          && e.about[i] <= Rejections(e.call.got[..i])
          && (e.about[i] < |e.executed| ==> !e.executed[e.about[i]]))
    && (forall i, j :: 0 <= i < j < |e.about| && Rejection(e.call.got[i]) && Rejection(e.call.got[j]) ==>
          e.about[i] != e.about[j])
    && (forall i :: 0 <= i < |e.executed| && !e.call.sends[i] ==> !e.executed[i])
  }

  /** The copies rejected by the first k replies. */
  ghost function Rejected(e: Exchange, k: nat): (r: set<nat>)
    requires |e.about| == |e.call.got| && k <= |e.about|
  {
    if k == 0 then {}
    else Rejected(e, k - 1) + if Rejection(e.call.got[k - 1]) then {e.about[k - 1]} else {}
  }

  lemma {:induction false} RejectedIsAbout(e: Exchange, k: nat, c: nat) returns (i: nat)
    requires |e.about| == |e.call.got| && k <= |e.about| && c in Rejected(e, k)
    ensures i < k && Rejection(e.call.got[i]) && e.about[i] == c
  {
    if c in Rejected(e, k - 1) {
      i := RejectedIsAbout(e, k - 1, c);
    } else {
      i := k - 1;
    }
  }

  lemma RejectionIsHonest(e: Exchange, i: nat)
    requires HonestRejections(e) && i < |e.about| && Rejection(e.call.got[i])
    ensures e.about[i] <= Rejections(e.call.got[..i])
    ensures e.about[i] < |e.executed| ==> !e.executed[e.about[i]]
  {}

  lemma RejectionsDiffer(e: Exchange, i: nat, j: nat)
    requires HonestRejections(e) && i < j < |e.about| && Rejection(e.call.got[i]) && Rejection(e.call.got[j])
    ensures e.about[i] != e.about[j]
  {}

  lemma HonestSizes(e: Exchange)
    requires HonestRejections(e)
    ensures |e.about| == |e.call.got| && |e.executed| == |e.call.sends|
    ensures forall i :: 0 <= i < |e.executed| && !e.call.sends[i] ==> !e.executed[i]
  {}

  /** After j rejections it is the first j copies that were rejected. */
  lemma {:induction false} FirstCopiesRejected(e: Exchange, k: nat)
    requires HonestRejections(e) && |e.about| == |e.call.got| && k <= |e.about|
    ensures forall c: nat :: c in Rejected(e, k) <==> c < Rejections(e.call.got[..k])
  {
    hide HonestRejections, Rejection;
    if k > 0 {
      FirstCopiesRejected(e, k - 1);
      assert e.call.got[..k][..k - 1] == e.call.got[..k - 1];
      if Rejection(e.call.got[k - 1]) {
        RejectionIsHonest(e, k - 1);
        var c := e.about[k - 1];
        if c in Rejected(e, k - 1) {
          var i := RejectedIsAbout(e, k - 1, c);
          RejectionsDiffer(e, i, k - 1);
        }
      }
    }
  }

  lemma {:induction false} OnlyLastCounts(executed: seq<bool>)
    requires forall i :: 0 <= i < |executed| - 1 ==> !executed[i]
    ensures Executions(executed) == if executed != [] && executed[|executed| - 1] then 1 else 0
  {
    if executed != [] {
      OnlyLastCounts(executed[..|executed| - 1]);
    }
  }

  /** Whatever is lost or corrupted, a call executes its request at most once; not
      at all when it reports a corrupted request or a send failure. */
  lemma AtMostOnce(e: Exchange)
    requires Legal(e.call) && HonestRejections(e)
    ensures Executions(e.executed) <= 1
    ensures e.call.result in {SendFailed, Propagated(WRONG_CRC_FROM_HOST)} ==> Executions(e.executed) == 0
    ensures true in e.executed ==> Executions(e.executed) == 1
  {
    hide HonestRejections, Legal, Rejections, Rejected;
    HonestSizes(e);
    OneResendPerRejection(e.call);
    assert e.call.got[..|e.about|] == e.call.got;
    FirstCopiesRejected(e, |e.about|);
    forall c | 0 <= c < Rejections(e.call.got) && c < |e.executed| ensures !e.executed[c] {
      var i := RejectedIsAbout(e, |e.about|, c);
      RejectionIsHonest(e, i);
    }
    if e.call.result == SendFailed {
      SendFailureIsLast(e.call);
    }
    OnlyLastCounts(e.executed);
  }

  lemma SendFailureIsLast(call: Call)
    requires Legal(call) && call.result == SendFailed
    ensures call.sends != [] && !call.sends[|call.sends| - 1]
  {}

  /** A call that succeeds returns 0 and has executed its request exactly once. */
  lemma ExactlyOnceOnSuccess(run: seq<Exchange>, n: nat)
    requires World(run) && n < |run| && Succeeded(run[n])
    requires forall k: nat :: k <= n ==> NoLongOutage(run, k)
    requires HonestRejections(run[n])
    ensures Code(run[n].call.result) == 0 && Executions(run[n].executed) == 1 && |run[n].call.sends| <= 4
  {
    hide HonestRejections, Legal, NoLongOutage, FrameId, Genuine, Fifo;
    assert Legal(Calls(run)[n]);
    OwnReply(run, n);
    AtMostOnce(run[n]);
    HowCallsEnd(run[n].call);
  }
}
