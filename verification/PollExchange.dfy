/** The poll request among what an earlier poll left on the line. */
module PollExchange {
  import opened Common
  import opened RequestEngine

  const MSAP_INDICATION_POLL_REQUEST: nat := 4

  /** What becomes of a poll: it is not sent, it does not arrive, or its confirm is
      lost, corrupted or received. */
  datatype Fate = NotSent | NotReached | ConfirmLost | ConfirmCorrupted | Answered {
    predicate Reached() {
      ConfirmLost? || ConfirmCorrupted? || Answered?
    }
  }

  /** Frames that are no confirms. */
  predicate Unsolicited(frames: seq<Received>) {
    forall i :: 0 <= i < |frames| ==> frames[i].Frame? && frames[i].primitive < SAP_CONFIRM_OFFSET
  }

  function ConfirmOf(c: Copy, result: nat): Received {
    Frame(c.request.primitive + SAP_CONFIRM_OFFSET, c.frameId, [result])
  }

  /** What is on the line: what was left there, and what the poll adds to it. */
  function Stream(left: seq<Received>, fate: Fate, confirm: Received, next: seq<Received>): seq<Received> {
    left + match fate
           case NotSent => []
           case NotReached => []
           case ConfirmLost => next
           case ConfirmCorrupted => [Error(WRONG_CRC)] + next
           case Answered => [confirm] + next
  }

  /** Reading on after the end of a stream times out. */
  function Heard(stream: seq<Received>, n: nat): (r: seq<Received>)
    ensures |r| == n
  {
    seq(n, i requires 0 <= i < n => if i < |stream| then stream[i] else Error(TIMEOUT_ERROR))
  }

  function Unread(stream: seq<Received>, n: nat): seq<Received> {
    if n <= |stream| then stream[n..] else []
  }

  /** The engine made this call on such a line. */
  ghost predicate Exchanged(call: Call, fate: Fate, left: seq<Received>, result: nat, next: seq<Received>) {
    && Legal(call) && call.copy.request.primitive == MSAP_INDICATION_POLL_REQUEST
    && call.got == Heard(Stream(left, fate, ConfirmOf(call.copy, result), next), |call.got|)
    && (fate.NotSent? <==> call.sends[..1] == [false])
  }

  lemma {:induction false} NoRejections(got: seq<Received>)
    requires forall i :: 0 <= i < |got| ==> !Rejection(got[i])
    ensures Rejections(got) == 0
  {
    if got != [] { NoRejections(got[..|got| - 1]); }
  }

  /** A call ends at the first reply that is its confirm or an error other than a
      rejection, if fewer than 50 others come before it. */
  lemma EndsAtFirst(call: Call, p: nat)
    requires Legal(call) && call.got != [] && p < MAX_CONFIRM_ATTEMPT
    requires forall i :: 0 <= i < p && i < |call.got| ==> call.got[i].Frame? && !Matches(call.got[i], call.copy)
    requires p < |call.got| ==> Matches(call.got[p], call.copy) || (call.got[p].Error? && !Rejection(call.got[p]))
    ensures |call.got| == p + 1
    ensures call.result ==
            if Matches(call.got[p], call.copy) then Confirm(call.got[p]) else Propagated(call.got[p].code)
  {
    hide Matches, Mismatches, Rejections;
    var n := |call.got| - 1;
    var before := call.got[..n];
    assert forall i :: 0 <= i < n ==> before[i] == call.got[i];
    if n < p {
      NoRejections(before);
      ReadsAreCounted(call.copy, before);
      assert false;
    }
    if p < n {
      assert false;
    }
  }

  lemma NotSentReadsNothing(call: Call)
    requires Legal(call)
    ensures call.sends[..1] == [false] <==> call.got == []
    ensures call.got == [] ==> call.result == SendFailed
  {
    hide Decides, Mismatches, Rejections;
    if call.got != [] {
      var before := call.got[..|call.got| - 1];
      assert call.sends[..1 + Rejections(before)][0];
    }
  }

  /** What is left on the line and what the poll brings holds fewer than 50 frames:
      the engine reads past all of the former, so that nothing of it is on the line
      afterwards.  What comes behind the confirm stays; if the confirm is lost, it is
      read past as well. */
  lemma PollReadsPast(call: Call, fate: Fate, left: seq<Received>, result: nat, next: seq<Received>)
    requires Exchanged(call, fate, left, result, next)
    requires Unsolicited(left) && Unsolicited(next) && |left| + |next| < MAX_CONFIRM_ATTEMPT
    ensures call.result ==
            match fate
            case NotSent => SendFailed
            case NotReached => Propagated(TIMEOUT_ERROR)
            case ConfirmLost => Propagated(TIMEOUT_ERROR)
            case ConfirmCorrupted => Propagated(WRONG_CRC)
            case Answered => Confirm(ConfirmOf(call.copy, result))
    ensures Unread(Stream(left, fate, ConfirmOf(call.copy, result), next), |call.got|) ==
            if fate.NotSent? then left else if fate.ConfirmCorrupted? || fate.Answered? then next else []
  {
    hide Legal;
    NotSentReadsNothing(call);
    if !fate.NotSent? {
      var stream := Stream(left, fate, ConfirmOf(call.copy, result), next);
      EndsAtFirst(call, if fate.ConfirmLost? then |left| + |next| else |left|);
    }
  }
}
