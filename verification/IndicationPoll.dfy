/** Fetching pending indications: one poll request, then one response for each
    indication, which tells the node whether to send another. */
module IndicationPoll {
  import opened Common
  import opened PollExchange
  import opened RequestEngine

  type IndicationId = p: nat | p < SAP_CONFIRM_OFFSET

  datatype Indication = Indication(primitive: IndicationId, frameId: nat, payload: seq<nat>)

  /** An indication on the wire, with its count of those that remain. */
  datatype Framed = Framed(indication: Indication, status: nat)

  /** What the request engine reads of them; they are no confirms. */
  function OnLine(wire: seq<Framed>): (r: seq<Received>)
    ensures |r| == |wire| && Unsolicited(r)
  {
    seq(|wire|, i requires 0 <= i < |wire| =>
      Frame(wire[i].indication.primitive, wire[i].indication.frameId, [wire[i].status] + wire[i].indication.payload))
  }

  datatype Response = Response(primitive: nat, frameId: nat, more: bool)

  /** The node and the line to it.  It sends the next pending indication after a
      poll and after each response that asks for more.  Receive number i fails
      with faults[i] when that is not positive: with a timeout, what is on the line
      comes too late and stays there; with any other error it was read. */
  class Node {
    const statuses: seq<nat>
    const faults: seq<int>
    var pending: seq<Indication>
    var wire: seq<Framed>
    var responses: seq<Response>
    var sent: nat
    var receives: nat

    constructor (pending: seq<Indication>, statuses: seq<nat>, faults: seq<int>)
      ensures this.pending == pending && wire == [] && responses == [] && sent == 0 && receives == 0
    {
      this.statuses, this.faults, this.pending, wire := statuses, faults, pending, [];
      responses, sent, receives := [], 0, 0;
    }

    function StatusAt(i: nat): nat {
      if i < |statuses| then statuses[i] else 0
    }

    predicate FaultAt(i: nat) {
      i < |faults| && faults[i] <= 0
    }

    predicate TakenAt(i: nat) {
      FaultAt(i) && faults[i] != TIMEOUT_ERROR
    }

    /** At most one indication is on the line at a time. */
    predicate Valid()
      reads this
    {
      |wire| <= 1
    }

    /** What the node sends when asked for the next indication. */
    function Upcoming(): (r: seq<Framed>)
      reads this
      ensures |r| <= 1
    {
      if pending == [] then [] else [Framed(pending[0], StatusAt(sent))]
    }

    function PollResult(): nat
      reads this
    {
      if pending == [] then 0 else 1
    }

    /** The engine made this call for a poll. */
    ghost predicate PolledBy(call: Call, fate: Fate)
      reads this
    {
      Exchanged(call, fate, OnLine(wire), PollResult(), OnLine(Upcoming()))
    }

    /** What is on the line while it makes the call. */
    function PollStream(call: Call, fate: Fate): seq<Received>
      reads this
    {
      Stream(OnLine(wire), fate, ConfirmOf(call.copy, PollResult()), OnLine(Upcoming()))
    }

    /** Each status says truly whether another indication remains. */
    ghost predicate Truthful()
      reads this
    {
      forall i: nat :: sent <= i < sent + |pending| ==> (StatusAt(i) > 0 <==> i + 1 < sent + |pending|)
    }

    ghost predicate Faultless()
      reads `receives
    {
      forall i: nat :: receives <= i ==> !FaultAt(i)
    }

    method SendNext()
      modifies `pending, `wire, `sent
      ensures old(pending) == [] ==> pending == [] && wire == old(wire) && sent == old(sent)
      ensures old(pending) != [] ==>
                && pending == old(pending)[1..] && sent == old(sent) + 1
                && wire == old(wire) + [Framed(old(pending)[0], StatusAt(old(sent)))]
    {
      if pending != [] {
        wire := wire + [Framed(pending[0], StatusAt(sent))];
        pending := pending[1..];
        sent := sent + 1;
      }
    }

    /** A poll.  What stays on the line is what the engine did not read: of what an
        earlier poll left there nothing, unless this one was not even sent. */
    method Poll(call: Call, fate: Fate)
      requires Valid() && PolledBy(call, fate)
      modifies `pending, `wire, `sent
      ensures Valid()
      ensures OnLine(wire) == Unread(old(PollStream(call, fate)), |call.got|)
      ensures wire == if fate.NotSent? then old(wire)
                      else if fate.ConfirmCorrupted? || fate.Answered? then old(Upcoming()) else []
      ensures !fate.Reached() || old(pending) == [] ==> pending == old(pending) && sent == old(sent)
      ensures fate.Reached() && old(pending) != [] ==> pending == old(pending)[1..] && sent == old(sent) + 1
    {
      PollReadsPast(call, fate, OnLine(wire), PollResult(), OnLine(Upcoming()));
      if fate.NotSent? {
        return;
      }
      wire := [];
      if fate.Reached() {
        SendNext();
      }
      if fate.ConfirmLost? {
        wire := [];
      }
    }

    method Respond(r: Response)
      modifies `pending, `wire, `sent, `responses
      ensures responses == old(responses) + [r]
      ensures !r.more || old(pending) == [] ==> pending == old(pending) && wire == old(wire) && sent == old(sent)
      ensures r.more && old(pending) != [] ==>
                && pending == old(pending)[1..] && sent == old(sent) + 1
                && wire == old(wire) + [Framed(old(pending)[0], StatusAt(old(sent)))]
    {
      responses := responses + [r];
      if r.more {
        SendNext();
      }
    }

    /** A positive size and a frame, or an error. */
    method Receive() returns (res: int, frame: Framed)
      modifies `wire, `receives
      ensures receives == old(receives) + 1
      ensures res > 0 <==> !FaultAt(old(receives)) && old(wire) != []
      ensures res > 0 ==> old(wire) == [frame] + wire
      ensures res <= 0 ==> wire == if TakenAt(old(receives)) && old(wire) != [] then old(wire)[1..] else old(wire)
    {
      res, frame := TIMEOUT_ERROR, Framed(Indication(0, 0, []), 0);
      if receives < |faults| && faults[receives] <= 0 {
        res := faults[receives];
        if res != TIMEOUT_ERROR && wire != [] {
          wire := wire[1..];
        }
      } else if wire != [] {
        res, frame := 1, wire[0];
        wire := wire[1..];
      }
      receives := receives + 1;
    }
  }

  /** What the node looked like when a poll began. */
  datatype Start = Start(pending: seq<Indication>, responses: seq<Response>, sent: nat, receives: nat)

  ghost function Now(node: Node): Start
    reads node
  {
    Start(node.pending, node.responses, node.sent, node.receives)
  }

  /** Where a poll stands after delivering n indications; `asked` tells whether
      the host has yet to read another one. */
  ghost predicate Polled(node: Node, s: Start, n: nat, asked: bool)
    reads node
  {
    && n <= |s.pending|
    && node.receives == s.receives + n
    && |node.responses| == |s.responses| + n && s.responses <= node.responses
    && (forall i :: 0 <= i < n ==>
          node.responses[|s.responses| + i] == Answer(s.pending[i], i + 1 < n || asked))
    && (if asked && n < |s.pending| then
          && node.wire == [Framed(s.pending[n], node.StatusAt(s.sent + n))]
          && node.pending == s.pending[n + 1..] && node.sent == s.sent + n + 1
        else
          node.wire == [] && node.pending == s.pending[n..] && node.sent == s.sent + n)
  }

  function Answer(x: Indication, more: bool): Response {
    Response(x.primitive + SAP_RESPONSE_OFFSET, x.frameId, more)
  }

  /** A poll that ended without its next indication: that one came too late and is
      still on the line, or it was read but corrupted, or the node had no more. */
  ghost predicate Interrupted(node: Node, s: Start, n: nat)
    reads node
  {
    if n < |s.pending| then
      && node.pending == s.pending[n + 1..]
      && (node.wire == [] || node.wire == [Framed(s.pending[n], node.StatusAt(s.sent + n))])
    else
      node.wire == [] && node.pending == []
  }

  /** One indication: it is acknowledged before it is handed over. */
  method HandleIndication(node: Node, lastOne: bool, ghost s: Start, ghost n: nat)
    returns (remaining: int, delivered: seq<Indication>)
    requires Polled(node, s, n, true)
    modifies node
    ensures remaining < 0 ==> remaining == TIMEOUT_ERROR && delivered == []
    ensures remaining < 0 ==> node.responses == old(node.responses) && node.receives == old(node.receives) + 1
    ensures remaining < 0 ==> Interrupted(node, s, n)
    ensures remaining < 0 <==> n >= |s.pending| || node.FaultAt(old(node.receives))
    ensures remaining < 0 && n < |s.pending| ==> (node.wire == [] <==> node.TakenAt(old(node.receives)))
    ensures remaining >= 0 ==>
              && delivered == [s.pending[n]] && remaining == node.StatusAt(s.sent + n)
              && Polled(node, s, n + 1, remaining > 0 && !lastOne)
  {
    var res, frame := node.Receive();
    if res <= 0 {
      return TIMEOUT_ERROR, [];
    }
    assert ([frame] + node.wire)[0] == frame;
    remaining := frame.status;
    node.Respond(Response(frame.indication.primitive + SAP_RESPONSE_OFFSET, frame.indication.frameId,
                          remaining > 0 && !lastOne));
    delivered := [frame.indication];
  }

  /** Every delivered indication has one acknowledgement, whose "more" bit says
      whether another receive was made after it. */
  ghost predicate Acknowledged(node: Node, s: Start, delivered: seq<Indication>)
    reads node
  {
    && |node.responses| == |s.responses| + |delivered| && s.responses <= node.responses
    && forall i :: 0 <= i < |delivered| ==>
         node.responses[|s.responses| + i] == Answer(delivered[i], i + 1 < node.receives - s.receives)
  }

  /** The loop after some indications, with `left` more allowed. */
  ghost predicate Fetching(node: Node, s: Start, left: nat, remaining: nat, delivered: seq<Indication>)
    reads node
  {
    && delivered <= s.pending && s.pending != []
    && Polled(node, s, |delivered|, remaining > 0 && left > 0)
    && remaining == if |delivered| == 0 then 1 else node.StatusAt(s.sent + |delivered| - 1)
  }

  lemma FetchingStarts(node: Node, s: Start, left: nat)
    requires s.pending != [] && node.receives == s.receives && node.responses == s.responses && left > 0
    requires node.wire == [Framed(s.pending[0], node.StatusAt(s.sent))]
    requires node.pending == s.pending[1..] && node.sent == s.sent + 1
    ensures Fetching(node, s, left, 1, [])
  {}

  lemma FetchingGoesOn(node: Node, s: Start, left: nat, remaining: nat, delivered: seq<Indication>)
    requires delivered <= s.pending && |delivered| < |s.pending|
    requires Polled(node, s, |delivered| + 1, remaining > 0 && left > 0)
    requires remaining == node.StatusAt(s.sent + |delivered|)
    ensures Fetching(node, s, left, remaining, delivered + [s.pending[|delivered|]])
  {
    hide Polled;
  }

  lemma FetchingMeans(node: Node, s: Start, left: nat, remaining: nat, delivered: seq<Indication>)
    requires Fetching(node, s, left, remaining, delivered)
    ensures delivered <= s.pending && Polled(node, s, |delivered|, remaining > 0 && left > 0)
    ensures node.receives == s.receives + |delivered| && |node.responses| == |s.responses| + |delivered|
    ensures s.responses <= node.responses
    ensures forall i :: 0 <= i < |delivered| ==>
              node.responses[|s.responses| + i]
              == Answer(delivered[i], i + 1 < |delivered| || (remaining > 0 && left > 0))
  {
    hide Answer;
  }

  /** The loop is left with the wire empty. */
  lemma FetchingEnds(node: Node, s: Start, left: nat, remaining: nat, delivered: seq<Indication>)
    requires Fetching(node, s, left, remaining, delivered) && (left == 0 || remaining == 0)
    ensures Acknowledged(node, s, delivered)
    ensures node.wire == [] && s.pending == delivered + node.pending
  {
    hide Answer;
  }

  ghost predicate TruthfulFrom(node: Node, s: Start) {
    forall i: nat :: s.sent <= i < s.sent + |s.pending| ==>
      (node.StatusAt(i) > 0 <==> i + 1 < s.sent + |s.pending|)
  }

  /** From a truthful node the loop takes what there is, up to the limit. */
  lemma TruthfulFetch(node: Node, s: Start, left: nat, remaining: nat, delivered: seq<Indication>)
    requires Fetching(node, s, left, remaining, delivered) && TruthfulFrom(node, s)
    ensures remaining > 0 <==> |delivered| < |s.pending|
  {
    hide Polled;
    if |delivered| > 0 {
      assert node.StatusAt(s.sent + |delivered| - 1) > 0 <==> |delivered| < |s.pending|;
    }
  }

  /** An interrupted poll has lost, or left on the line, at most one indication. */
  lemma InterruptedMeans(node: Node, s: Start, n: nat)
    requires Interrupted(node, s, n) && n <= |s.pending|
    ensures |node.wire| <= 1
    ensures |node.pending| <= |s.pending| <= n + |node.pending| + 1
    ensures node.pending == s.pending[|s.pending| - |node.pending|..]
  {}

  lemma FetchedMeans(all: seq<Indication>, delivered: seq<Indication>, rest: seq<Indication>)
    requires all == delivered + rest
    ensures |rest| <= |all| <= |delivered| + |rest| + 1
    ensures rest == all[|delivered|..] && rest == all[|all| - |rest|..]
  {}

  /** The loop, after a poll that brought the first indication. */
  method Fetch(node: Node, maxInd: nat, ghost s: Start) returns (ret: int, delivered: seq<Indication>)
    requires s == Start(s.pending, node.responses, s.sent, node.receives) && s.pending != [] && maxInd > 0
    requires node.wire == [Framed(s.pending[0], node.StatusAt(s.sent))]
    requires node.pending == s.pending[1..] && node.sent == s.sent + 1
    modifies node
    ensures |delivered| <= maxInd && delivered <= s.pending && Acknowledged(node, s, delivered)
    ensures ret in {0, 1, TIMEOUT_ERROR}
    ensures ret >= 0 ==> node.wire == [] && node.pending == s.pending[|delivered|..]
    ensures |node.wire| <= 1
    ensures |node.pending| <= |s.pending| <= |delivered| + |node.pending| + 1
    ensures node.pending == s.pending[|s.pending| - |node.pending|..]
    ensures TruthfulFrom(node, s) && old(node.Faultless()) ==>
              && delivered == s.pending[..Minimum(|s.pending|, maxInd)]
              && ret == if |s.pending| > maxInd then 1 else 0
  {
    hide Polled, Answer, Fetching, Interrupted, TruthfulFrom;
    delivered := [];
    var left: nat, remaining := maxInd, 1;
    FetchingStarts(node, s, left);
    while left > 0 && remaining != 0
      invariant left + |delivered| == maxInd && remaining >= 0
      invariant Fetching(node, s, left, remaining, delivered)
    {
      FetchingMeans(node, s, left, remaining, delivered);
      if TruthfulFrom(node, s) { TruthfulFetch(node, s, left, remaining, delivered); }
      left := left - 1;
      var lastOne := left == 0;
      var one;
      remaining, one := HandleIndication(node, lastOne, s, |delivered|);
      if remaining < 0 {
        AcknowledgedSoFar(node, s, delivered);
        InterruptedMeans(node, s, |delivered|);
        return remaining, delivered;
      }
      FetchingGoesOn(node, s, left, remaining, delivered);
      delivered := delivered + one;
    }
    FetchingMeans(node, s, left, remaining, delivered);
    FetchingEnds(node, s, left, remaining, delivered);
    FetchedMeans(s.pending, delivered, node.pending);
    if TruthfulFrom(node, s) { TruthfulFetch(node, s, left, remaining, delivered); }
    ret := if remaining > 0 then 1 else 0;
  }

  lemma AcknowledgedSoFar(node: Node, s: Start, delivered: seq<Indication>)
    requires |node.responses| == |s.responses| + |delivered| && s.responses <= node.responses
    requires node.receives == s.receives + |delivered| + 1
    requires forall i :: 0 <= i < |delivered| ==> node.responses[|s.responses| + i] == Answer(delivered[i], true)
    ensures Acknowledged(node, s, delivered)
  {}

  /** Each acknowledgement names the indication it answers. */
  lemma AnswersName(node: Node, s: Start, delivered: seq<Indication>, i: nat)
    requires Acknowledged(node, s, delivered) && i < |delivered|
    ensures |node.responses| == |s.responses| + |delivered|
    ensures var r := node.responses[|s.responses| + i];
            && r.primitive == delivered[i].primitive + 0x80 && r.frameId == delivered[i].frameId
            && (r.more <==> i + 1 < node.receives - s.receives)
  {
    assert node.responses[|s.responses| + i] == Answer(delivered[i], i + 1 < node.receives - s.receives);
  }

  lemma TruthfulNow(node: Node)
    ensures node.Truthful() ==> TruthfulFrom(node, Now(node))
  {}

  lemma NoneAcknowledged(node: Node, s: Start)
    requires node.responses == s.responses
    ensures Acknowledged(node, s, [])
  {}

  /** How the poll request ends. */
  lemma PollEnds(node: Node, call: Call, fate: Fate)
    requires node.Valid() && node.PolledBy(call, fate)
    ensures Code(call.result) == 0 <==> fate.Answered?
    ensures Code(call.result) <= 0
    ensures fate.Answered? ==> call.result.Confirm? && call.result.frame.Frame?
    ensures fate.Answered? ==> call.result.frame.payload == [if node.pending == [] then 0 else 1]
  {
    hide Exchanged, Stream, OnLine, Unread;
    PollReadsPast(call, fate, OnLine(node.wire), node.PollResult(), OnLine(node.Upcoming()));
  }

  /** Delivered are the first pending indications, each acknowledged; the "more"
      bit of an acknowledgement always equals "the host will receive again".  The
      poll itself is a call of the request engine, among whatever an earlier poll
      left on the line. */
  method GetIndicationLocked(node: Node, maxInd: nat, call: Call, fate: Fate)
    returns (ret: int, delivered: seq<Indication>)
    requires node.Valid() && (maxInd > 0 ==> node.PolledBy(call, fate))
    modifies node
    ensures node.Valid()
    ensures maxInd == 0 ==> ret == WRONG_PARAM_ERROR
    ensures maxInd == 0 ==> delivered == [] && Now(node) == old(Now(node)) && node.wire == old(node.wire)
    ensures maxInd > 0 && !fate.Answered? ==> ret == Code(call.result) < 0 && delivered == []
    ensures maxInd > 0 && fate.Answered? ==> ret in {0, 1, TIMEOUT_ERROR}
    ensures |delivered| <= maxInd && delivered <= old(node.pending)
    ensures Acknowledged(node, old(Now(node)), delivered)
    ensures ret >= 0 ==> node.wire == [] && node.pending == old(node.pending)[|delivered|..]
    ensures |node.pending| <= |old(node.pending)| <= |delivered| + |node.pending| + 1
    ensures node.pending == old(node.pending)[|old(node.pending)| - |node.pending|..]
    ensures maxInd > 0 && fate.Answered? && old(node.Truthful()) && old(node.Faultless()) ==>
              && delivered == old(node.pending)[..Minimum(|old(node.pending)|, maxInd)]
              && ret == if |old(node.pending)| > maxInd then 1 else 0
  {
    hide Polled, Answer, Fetching, Exchanged, Stream, Interrupted, OnLine, Unread, Acknowledged,
      Node.Truthful, Node.Faultless, TruthfulFrom, Node.PollStream, Node.PollResult, Code;
    ghost var s := Now(node);
    NoneAcknowledged(node, s);
    TruthfulNow(node);
    if maxInd == 0 {
      return WRONG_PARAM_ERROR, [];
    }
    PollEnds(node, call, fate);
    node.Poll(call, fate);
    NoneAcknowledged(node, s);
    if Code(call.result) < 0 {
      return Code(call.result), [];
    }
    if call.result.frame.payload[0] == 0 {
      return 0, [];
    }
    ret, delivered := Fetch(node, maxInd, s);
  }
}
