/** Sending: one request for a message within the MTU, a run of fragment
    requests for a longer one. */
module DsapSender {
  import opened Common
  import opened Fragments
  import opened DsapFrames

  const ERROR_TOO_LONG := 6

  /** The outcome of one request: a negative code, or zero and the result byte of the confirm. */
  datatype Answer = Answer(res: int, result: nat)

  const NoAnswer := Answer(TIMEOUT_ERROR, 0)

  predicate Accepted(a: Answer) {
    a.res >= 0 && a.result == 0
  }

  function Code(a: Answer): int {
    if a.res < 0 then a.res else a.result
  }

  function Head(answers: seq<Answer>): Answer {
    if answers == [] then NoAnswer else answers[0]
  }

  function Tail(answers: seq<Answer>): seq<Answer> {
    if answers == [] then [] else answers[1..]
  }

  /** The serial link: what was sent, and how the node will answer. */
  class Link {
    var sent: seq<Request>
    var answers: seq<Answer>

    constructor (answers: seq<Answer>)
      ensures sent == [] && this.answers == answers
    {
      sent, this.answers := [], answers;
    }

    method SendRequest(r: Request) returns (a: Answer)
      modifies this
      ensures sent == old(sent) + [r]
      ensures a == Head(old(answers)) && answers == Tail(old(answers))
    {
      sent := sent + [r];
      a := Head(answers);
      answers := Tail(answers);
    }
  }

  // ---------------------------------------------------------- specification

  function FragRequest(m: Message, o: nat, h: Header, txOptions: bv8, id: nat): Request
    requires o <= |m.bytes|
  {
    var last := m.PieceEnd(o) == |m.bytes|;
    TxFrag(h, if last then txOptions else txOptions & 0xFE, id, OffsetFlag(o, last), m.PieceBytes(o))
  }

  /** The requests for the pieces from offset `o` on. */
  function FragRequests(m: Message, o: nat, h: Header, txOptions: bv8, id: nat): seq<Request>
    requires m.mtu > 0 && o < |m.bytes|
    decreases |m.bytes| - o
  {
    [FragRequest(m, o, h, txOptions, id)]
    + if o + m.mtu < |m.bytes| then FragRequests(m, o + m.mtu, h, txOptions, id) else []
  }

  function TxOptions(tracked: bool, unackCsmaCa: bool, hopLimit: bv8): bv8 {
    (if tracked then 0x1 else 0) | (if unackCsmaCa then 0x2 else 0) | ((hopLimit & 0xf) << 2)
  }

  function Requests(m: Message, h: Header, txOptions: bv8, id: nat): seq<Request>
    requires m.mtu > 0
  {
    if |m.bytes| <= m.mtu then [TxTt(h, txOptions, m.bytes)] else FragRequests(m, 0, h, txOptions, id)
  }

  /** How many requests of a run are sent: up to the first that is not accepted. */
  function SentCount(rs: seq<Request>, answers: seq<Answer>): (n: nat)
    ensures n <= |rs|
  {
    if rs == [] then 0
    else if !Accepted(Head(answers)) then 1
    else 1 + SentCount(rs[1..], Tail(answers))
  }

  /** The code a run returns: that of the first request not accepted, else 0. */
  function RunCode(rs: seq<Request>, answers: seq<Answer>): int {
    if rs == [] then 0
    else if !Accepted(Head(answers)) then Code(Head(answers))
    else RunCode(rs[1..], Tail(answers))
  }

  /** The first `i` requests of a run were accepted; `answers` are still to come. */
  ghost predicate Progress(rs: seq<Request>, i: nat, all: seq<Answer>, answers: seq<Answer>) {
    && i <= |rs|
    && RunCode(rs[i..], answers) == RunCode(rs, all)
    && i + SentCount(rs[i..], answers) == SentCount(rs, all)
  }

  lemma ProgressStart(rs: seq<Request>, all: seq<Answer>)
    ensures Progress(rs, 0, all, all)
  {
    assert rs[0..] == rs;
  }

  lemma ProgressStep(rs: seq<Request>, i: nat, all: seq<Answer>, answers: seq<Answer>)
    requires Progress(rs, i, all, answers) && i < |rs|
    ensures if Accepted(Head(answers)) then Progress(rs, i + 1, all, Tail(answers))
            else RunCode(rs, all) == Code(Head(answers)) && SentCount(rs, all) == i + 1
  {
    assert rs[i..][1..] == rs[i + 1..];
  }

  lemma ProgressEnd(rs: seq<Request>, all: seq<Answer>, answers: seq<Answer>)
    requires Progress(rs, |rs|, all, answers)
    ensures RunCode(rs, all) == 0 && SentCount(rs, all) == |rs|
  {
  }

  // ------------------------------------------------------------- arithmetic

  /** The offset of fragment number `i`. */
  function OffsetOf(i: nat, mtu: nat): nat {
    i * mtu
  }

  lemma OffsetOfStep(i: nat, mtu: nat)
    ensures OffsetOf(i + 1, mtu) == OffsetOf(i, mtu) + mtu
  {
  }

  lemma {:induction false} OffsetOfMonotonic(i: nat, j: nat, mtu: nat)
    requires i <= j
    ensures OffsetOf(i, mtu) <= OffsetOf(j, mtu)
    decreases j - i
  {
    hide OffsetOf;
    if i < j {
      OffsetOfStep(i, mtu);
      OffsetOfMonotonic(i + 1, j, mtu);
    }
  }

  lemma DivMod(x: nat, d: nat)
    requires d > 0
    ensures x == OffsetOf(x / d, d) + x % d && x % d < d
  {
  }

  lemma QuotientIsUnique(x: nat, d: nat, q: nat, r: nat)
    requires r < d && x == OffsetOf(q, d) + r
    ensures x / d == q
  {
    hide OffsetOf;
    DivMod(x, d);
    var q' := x / d;
    OffsetOfStep(q, d);
    OffsetOfStep(q', d);
    if q' < q { OffsetOfMonotonic(q' + 1, q, d); }
    if q < q' { OffsetOfMonotonic(q + 1, q', d); }
  }

  function FragmentsNeeded(len: nat, mtu: nat): nat
    requires mtu > 0
  {
    (len + mtu - 1) / mtu
  }

  function LastFragmentSize(len: nat, mtu: nat): nat
    requires mtu > 0
  {
    if len % mtu == 0 then mtu else len % mtu
  }

  /** Fragments of one MTU each, the last one of what is left, end exactly at the
      end of the message. */
  lemma FragmentCount(len: nat, mtu: nat)
    requires 0 < mtu && 0 < len
    ensures var n := FragmentsNeeded(len, mtu);
            && 0 < n
            && OffsetOf(n - 1, mtu) < len <= OffsetOf(n, mtu)
            && OffsetOf(n - 1, mtu) + LastFragmentSize(len, mtu) == len
  {
    hide OffsetOf;
    var q, r := len / mtu, len % mtu;
    DivMod(len, mtu);
    OffsetOfStep(q, mtu);
    if r == 0 {
      assert q > 0 by { if q == 0 { OffsetOfZero(mtu); } }
      OffsetOfStep(q - 1, mtu);
      QuotientIsUnique(len + mtu - 1, mtu, q, mtu - 1);
    } else {
      QuotientIsUnique(len + mtu - 1, mtu, q + 1, r - 1);
    }
  }

  /** Where fragment number `i` lies in the message. */
  lemma FragmentBounds(m: Message, i: nat)
    requires 0 < m.mtu && 0 < |m.bytes|
    ensures i < FragmentsNeeded(|m.bytes|, m.mtu) <==> OffsetOf(i, m.mtu) < |m.bytes|
    ensures i < FragmentsNeeded(|m.bytes|, m.mtu) ==>
              var last := i == FragmentsNeeded(|m.bytes|, m.mtu) - 1;
              && last == (m.PieceEnd(OffsetOf(i, m.mtu)) == |m.bytes|)
              && m.PieceEnd(OffsetOf(i, m.mtu)) - OffsetOf(i, m.mtu)
                 == (if last then LastFragmentSize(|m.bytes|, m.mtu) else m.mtu)
  {
    hide OffsetOf, FragmentsNeeded, LastFragmentSize;
    var n := FragmentsNeeded(|m.bytes|, m.mtu);
    FragmentCount(|m.bytes|, m.mtu);
    if i < n {
      OffsetOfMonotonic(i, n - 1, m.mtu);
      OffsetOfStep(i, m.mtu);
      if i < n - 1 { OffsetOfMonotonic(i + 1, n - 1, m.mtu); }
    } else {
      OffsetOfMonotonic(n, i, m.mtu);
    }
  }

  lemma OffsetOfZero(mtu: nat)
    ensures OffsetOf(0, mtu) == 0
  {
  }

  /** Request number `i` of the run is the one for the piece at `i` times the MTU. */
  lemma {:induction false} FragRequestsAt(m: Message, o: nat, h: Header, txOptions: bv8, id: nat, i: nat)
    requires m.mtu > 0 && o < |m.bytes|
    ensures i < |FragRequests(m, o, h, txOptions, id)| <==> o + OffsetOf(i, m.mtu) < |m.bytes|
    ensures o + OffsetOf(i, m.mtu) < |m.bytes| ==>
              FragRequests(m, o, h, txOptions, id)[i] == FragRequest(m, o + OffsetOf(i, m.mtu), h, txOptions, id)
    decreases i
  {
    hide OffsetOf, FragRequest;
    OffsetOfZero(m.mtu);
    if i > 0 {
      OffsetOfStep(i - 1, m.mtu);
      if o + m.mtu < |m.bytes| {
        FragRequestsAt(m, o + m.mtu, h, txOptions, id, i - 1);
      }
    }
  }

  // ------------------------------------------------------- what is sent

  lemma {:induction false} OffsetOfIsMultiple(i: nat, mtu: nat)
    requires mtu > 0
    ensures Multiple(OffsetOf(i, mtu), mtu)
  {
    hide OffsetOf;
    OffsetOfZero(mtu);
    if i > 0 {
      OffsetOfIsMultiple(i - 1, mtu);
      OffsetOfStep(i - 1, mtu);
    }
  }

  lemma {:induction false} MultipleIsOffsetOf(o: nat, mtu: nat) returns (i: nat)
    requires mtu > 0 && Multiple(o, mtu)
    ensures o == OffsetOf(i, mtu)
  {
    hide OffsetOf;
    OffsetOfZero(mtu);
    if o == 0 {
      i := 0;
    } else {
      var i' := MultipleIsOffsetOf(o - mtu, mtu);
      OffsetOfStep(i', mtu);
      i := i' + 1;
    }
  }

  /** The indication the receiving sink raises for a fragment request sent by node `src`. */
  function Indicated(src: nat, r: Request): RxFrag
    requires r.TxFrag?
  {
    RxFrag(src, r.fullPacketId, r.offsetFlag, r.apdu)
  }

  /** Each frame sent carries, to the receiver, one piece of the message. */
  lemma FrameIsPiece(m: Message, h: Header, txOptions: bv8, id: nat, src: nat, i: nat)
    requires m.Valid() && i < |FragRequests(m, 0, h, txOptions, id)|
    ensures var r := FragRequests(m, 0, h, txOptions, id)[i];
            && r.TxFrag? && OffsetOf(i, m.mtu) < |m.bytes|
            && FragmentOf(Indicated(src, r)) == m.Piece(Key(src, id), OffsetOf(i, m.mtu))
            && m.IsPiece(FragmentOf(Indicated(src, r)))
  {
    hide OffsetOf;
    FragRequestsAt(m, 0, h, txOptions, id, i);
    OffsetOfIsMultiple(i, m.mtu);
    var o := OffsetOf(i, m.mtu);
    OffsetFlagRoundTrip(src, id, o, m.PieceEnd(o) == |m.bytes|, m.PieceBytes(o));
  }

  /** Each piece of the message is carried by exactly one frame of the run. */
  lemma EveryPieceSentOnce(m: Message, h: Header, txOptions: bv8, id: nat, src: nat, o: nat) returns (i: nat)
    requires m.Valid() && m.IsOffset(o)
    ensures var rs := FragRequests(m, 0, h, txOptions, id);
            && i < |rs| && rs[i].TxFrag?
            && FragmentOf(Indicated(src, rs[i])) == m.Piece(Key(src, id), o)
            && forall j :: 0 <= j < |rs| && j != i ==> rs[j].TxFrag? && FragmentOf(Indicated(src, rs[j])).offset != o
  {
    hide OffsetOf;
    i := MultipleIsOffsetOf(o, m.mtu);
    var rs := FragRequests(m, 0, h, txOptions, id);
    FragRequestsAt(m, 0, h, txOptions, id, i);
    FrameIsPiece(m, h, txOptions, id, src, i);
    forall j | 0 <= j < |rs| && j != i
      ensures rs[j].TxFrag? && FragmentOf(Indicated(src, rs[j])).offset != o
    {
      FrameIsPiece(m, h, txOptions, id, src, j);
      OffsetOfStep(i, m.mtu);
      OffsetOfStep(j, m.mtu);
      if i < j { OffsetOfMonotonic(i + 1, j, m.mtu); } else { OffsetOfMonotonic(j + 1, i, m.mtu); }
    }
  }

  /** Only the last frame of a run may ask the node to report that it was sent. */
  lemma OnlyLastFrameIsTracked(m: Message, h: Header, txOptions: bv8, id: nat, i: nat)
    requires m.Valid() && i < |FragRequests(m, 0, h, txOptions, id)|
    ensures var rs := FragRequests(m, 0, h, txOptions, id);
            && rs[i].TxFrag?
            && rs[i].txOptions & 0x1 == (if i == |rs| - 1 then txOptions & 0x1 else 0)
            && rs[i].txOptions & 0xFE == txOptions & 0xFE
  {
    hide OffsetOf;
    FragRequestsAt(m, 0, h, txOptions, id, i);
    FragRequestsAt(m, 0, h, txOptions, id, i + 1);
    OffsetOfStep(i, m.mtu);
    ClearTracking(txOptions);
  }

  lemma ClearTracking(x: bv8)
    ensures (x & 0xFE) & 0x1 == 0 && (x & 0xFE) & 0xFE == x & 0xFE
  {
  }

  /** Every frame of a run carries the id of its message. */
  lemma FramesCarryId(m: Message, h: Header, txOptions: bv8, id: nat)
    requires m.mtu > 0 && |m.bytes| > 0
    ensures forall i :: 0 <= i < |FragRequests(m, 0, h, txOptions, id)| ==>
              var r := FragRequests(m, 0, h, txOptions, id)[i]; r.TxFrag? && r.fullPacketId == id
  {
    hide FragRequests, OffsetOf;
    forall i | 0 <= i < |FragRequests(m, 0, h, txOptions, id)|
      ensures var r := FragRequests(m, 0, h, txOptions, id)[i]; r.TxFrag? && r.fullPacketId == id
    {
      FragRequestsAt(m, 0, h, txOptions, id, i);
    }
  }

  /** The 12-bit id of the nth fragmented message of a sender. */
  function IdOf(n: nat): (id: nat)
    ensures id < 0x1000
  {
    (n % 0x1_0000) % 0x1000
  }

  /** The ids that two fragmented messages of one sender put in their frames are
      equal exactly when the messages are a multiple of 4096 apart, across the
      wrap of the 16-bit counter. */
  lemma IdsRepeatAfter4096(sender: Sender, i: nat, j: nat)
    requires sender.Valid() && i < j < |sender.ids|
    ensures sender.ids[i] == sender.ids[j] <==> (j - i) % 0x1000 == 0
  {
    NestedMod(i);
    NestedMod(j);
    SameRemainder(i, j);
  }

  lemma SameRemainder(x: nat, y: nat)
    requires x <= y
    ensures x % 0x1000 == y % 0x1000 <==> (y - x) % 0x1000 == 0
  {
    var d := y / 0x1000 - x / 0x1000;
    assert y - x == 0x1000 * d + (y % 0x1000 - x % 0x1000);
  }

  lemma NestedMod(x: nat)
    ensures (x % 0x1_0000) % 0x1000 == x % 0x1000
  {
  }

  // ----------------------------------------------------------------- sender

  /** What the fields of a fragment request are to its receiver. */
  ghost predicate Carries(r: Request, f: Fragment, h: Header, txOptions: bv8) {
    && r.TxFrag? && r.h == h
    && FragmentOf(Indicated(f.key.src, r)) == f
    && r.txOptions & 0xFE == txOptions & 0xFE
    && r.txOptions & 0x1 == if f.last then txOptions & 0x1 else 0
  }

  /** The request for a piece carries that piece, and no other request with the
      unused bits of the offset field clear does. */
  lemma CarriesIff(m: Message, o: nat, h: Header, txOptions: bv8, key: Key, r: Request)
    requires m.Valid() && o <= |m.bytes|
    requires r.TxFrag? && r.offsetFlag < 0x1_0000 && (r.offsetFlag / 0x1000) % 8 == 0
    ensures Carries(r, m.Piece(key, o), h, txOptions) <==> r == FragRequest(m, o, h, txOptions, key.id)
  {
    OffsetFlagRoundTrip(key.src, key.id, o, m.PieceEnd(o) == |m.bytes|, m.PieceBytes(o));
    if r.TxFrag? {
      OffsetFlagIsUnique(r.offsetFlag, o, m.PieceEnd(o) == |m.bytes|);
      OptionsAreUnique(r.txOptions, txOptions);
    }
    ClearTracking(txOptions);
  }

  lemma OffsetFlagIsUnique(field: nat, offset: nat, last: bool)
    requires field < 0x1_0000 && (field / 0x1000) % 8 == 0 && offset < 0x1000
    ensures field % 0x1000 == offset && ((field / 0x8000) % 2 == 1) == last <==> field == OffsetFlag(offset, last)
  {}

  lemma OptionsAreUnique(x: bv8, y: bv8)
    ensures x & 0xFE == y & 0xFE && x & 0x1 == y & 0x1 <==> x == y
    ensures x & 0xFE == y & 0xFE && x & 0x1 == 0 <==> x == y & 0xFE
  {}

  // -------------------------------------------------- what a sending comes to

  /** The bytes that requests carry, one after the other. */
  function Apdus(rs: seq<Request>): seq<byte> {
    if rs == [] then [] else Apdus(rs[..|rs| - 1]) + rs[|rs| - 1].apdu
  }

  function AnswerAt(answers: seq<Answer>, i: nat): Answer {
    if i < |answers| then answers[i] else NoAnswer
  }

  /** Bit 0 asks for tracking, bit 1 for sending without acknowledgement, bits 2 to 5
      are the hop limit; the others are clear. */
  predicate HasOptions(x: bv8, tracked: bool, unackCsmaCa: bool, hopLimit: bv8) {
    && x & 0x1 == (if tracked then 0x1 else 0)
    && x & 0x2 == (if unackCsmaCa then 0x2 else 0)
    && (x >> 2) & 0xF == hopLimit & 0xF
    && x & 0xC0 == 0
  }

  lemma OptionsAreSet(tracked: bool, unackCsmaCa: bool, hopLimit: bv8)
    ensures var x := TxOptions(tracked, unackCsmaCa, hopLimit);
            HasOptions(x, tracked, unackCsmaCa, hopLimit) && HasOptions(x & 0xFE, false, unackCsmaCa, hopLimit)
  {}

  lemma AnswerOfTail(answers: seq<Answer>, i: nat)
    ensures AnswerAt(answers, 0) == Head(answers) && AnswerAt(Tail(answers), i) == AnswerAt(answers, i + 1)
  {}

  /** Everything before the last request sent was accepted, and the code is that of
      the last one; it is 0 only when all were sent. */
  lemma {:induction false} CodeOfLastSent(rs: seq<Request>, answers: seq<Answer>)
    requires rs != []
    ensures var n := SentCount(rs, answers);
            && 0 < n
            && (forall i: nat :: i < n - 1 ==> Accepted(AnswerAt(answers, i)))
            && RunCode(rs, answers) == Code(AnswerAt(answers, n - 1))
            && (RunCode(rs, answers) == 0 ==> n == |rs|)
    decreases |rs|
  {
    hide AnswerAt, Accepted, Head, Tail;
    AnswerOfTail(answers, 0);
    CodeIsZeroIff(Head(answers));
    if Accepted(Head(answers)) && |rs| > 1 {
      CodeOfLastSent(rs[1..], Tail(answers));
      forall i: nat | i < SentCount(rs, answers) - 1
        ensures Accepted(AnswerAt(answers, i))
      {
        if i > 0 { AnswerOfTail(answers, i - 1); }
      }
      AnswerOfTail(answers, SentCount(rs[1..], Tail(answers)) - 1);
    }
  }

  lemma CodeIsZeroIff(a: Answer)
    ensures Code(a) == 0 <==> Accepted(a)
  {}

  /** The first `i` frames carry the message up to the place where the next begins. */
  lemma {:induction false} ApdusSoFar(m: Message, h: Header, txOptions: bv8, id: nat, i: nat)
    requires m.mtu > 0 && |m.bytes| > 0 && i <= |FragRequests(m, 0, h, txOptions, id)|
    ensures var o := OffsetOf(i, m.mtu);
            Apdus(FragRequests(m, 0, h, txOptions, id)[..i]) == m.bytes[..if o < |m.bytes| then o else |m.bytes|]
    decreases i
  {
    hide OffsetOf, FragRequests;
    var rs := FragRequests(m, 0, h, txOptions, id);
    OffsetOfZero(m.mtu);
    if i > 0 {
      ApdusSoFar(m, h, txOptions, id, i - 1);
      FragRequestsAt(m, 0, h, txOptions, id, i - 1);
      OffsetOfStep(i - 1, m.mtu);
      assert rs[..i][..i - 1] == rs[..i - 1];
    }
  }

  /** Number `i` of a message's frames: where it begins, whether it is the last, its
      options. */
  lemma FrameInRun(m: Message, h: Header, tracked: bool, unackCsmaCa: bool, hopLimit: bv8, id: nat, i: nat)
    requires m.Valid()
    requires i < |FragRequests(m, 0, h, TxOptions(tracked, unackCsmaCa, hopLimit), id)|
    ensures var rs := FragRequests(m, 0, h, TxOptions(tracked, unackCsmaCa, hopLimit), id);
            var last := Apdus(rs[..i + 1]) == m.bytes;
            && rs[i].TxFrag? && rs[i].h == h && rs[i].fullPacketId == id
            && Apdus(rs[..i + 1]) <= m.bytes && |Apdus(rs[..i])| == OffsetOf(i, m.mtu) < |m.bytes|
            && rs[i].offsetFlag == |Apdus(rs[..i])| + (if last then 0x8000 else 0)
            && HasOptions(rs[i].txOptions, tracked && last, unackCsmaCa, hopLimit)
            && 0 < |rs[i].apdu| <= m.mtu && (last <==> i == |rs| - 1)
  {
    hide OffsetOf, FragRequests, Apdus, TxOptions, HasOptions;
    var txOptions := TxOptions(tracked, unackCsmaCa, hopLimit);
    OptionsAreSet(tracked, unackCsmaCa, hopLimit);
    ApdusSoFar(m, h, txOptions, id, i);
    ApdusSoFar(m, h, txOptions, id, i + 1);
    FragRequestsAt(m, 0, h, txOptions, id, i);
    FragRequestsAt(m, 0, h, txOptions, id, i + 1);
    OffsetOfStep(i, m.mtu);
    UntrackedOptions(tracked, unackCsmaCa, hopLimit);
  }

  lemma UntrackedOptions(tracked: bool, unackCsmaCa: bool, hopLimit: bv8)
    ensures HasOptions(TxOptions(tracked, unackCsmaCa, hopLimit), tracked && true, unackCsmaCa, hopLimit)
    ensures HasOptions(TxOptions(tracked, unackCsmaCa, hopLimit) & 0xFE, tracked && false, unackCsmaCa, hopLimit)
  {
    hide HasOptions, TxOptions;
    OptionsAreSet(tracked, unackCsmaCa, hopLimit);
  }

  /** What the requests for a message are, fragmented or not. */
  lemma RequestsAre(m: Message, h: Header, tracked: bool, unackCsmaCa: bool, hopLimit: bv8, id: nat)
    requires 1 <= m.mtu <= MAX_APDU_DSAP_SIZE && |m.bytes| <= MAX_FULL_PACKET_SIZE
    ensures var rs := Requests(m, h, TxOptions(tracked, unackCsmaCa, hopLimit), id);
            && rs != [] && Apdus(rs) == m.bytes
            && (|m.bytes| <= m.mtu ==> |rs| == 1 && rs[0].TxTt?)
            && forall i :: 0 <= i < |rs| ==> IsRequestAt(rs, i, m, h, tracked, unackCsmaCa, hopLimit, id)
  {
    hide FragRequests, Apdus, TxOptions, HasOptions, OffsetOf;
    var txOptions := TxOptions(tracked, unackCsmaCa, hopLimit);
    var rs := Requests(m, h, txOptions, id);
    if |m.bytes| <= m.mtu {
      OptionsAreSet(tracked, unackCsmaCa, hopLimit);
      ApdusOfOne(rs[0]);
      assert rs[..1] == [rs[0]];
    } else {
      FragRequestsAt(m, 0, h, txOptions, id, 0);
      OffsetOfZero(m.mtu);
      forall i | 0 <= i < |rs|
        ensures IsRequestAt(rs, i, m, h, tracked, unackCsmaCa, hopLimit, id)
      {
        FrameInRun(m, h, tracked, unackCsmaCa, hopLimit, id, i);
      }
      FrameInRun(m, h, tracked, unackCsmaCa, hopLimit, id, |rs| - 1);
      assert rs[..|rs|] == rs;
    }
  }

  /** Request number `i` of those for a message: it goes on where the ones before it
      ended, and is tracked only if it ends the message. */
  ghost predicate IsRequestAt(rs: seq<Request>, i: nat, m: Message, h: Header, tracked: bool, unackCsmaCa: bool,
                              hopLimit: bv8, id: nat)
    requires i < |rs|
  {
    var ends := Apdus(rs[..i + 1]) == m.bytes;
    && rs[i].h == h && |rs[i].apdu| <= m.mtu && Apdus(rs[..i + 1]) <= m.bytes
    && HasOptions(rs[i].txOptions, tracked && ends, unackCsmaCa, hopLimit)
    && (m.mtu < |m.bytes| ==>
          && rs[i].TxFrag? && rs[i].fullPacketId == id
          && rs[i].offsetFlag == |Apdus(rs[..i])| + if ends then 0x8000 else 0)
  }

  lemma ApdusOfOne(r: Request)
    ensures Apdus([r]) == r.apdu && Apdus([]) == []
  {
    assert [r][..0] == [];
  }

  lemma SamePart(old': seq<Request>, rs: seq<Request>, n: nat)
    requires n <= |rs|
    ensures old' <= old' + rs[..n] && (old' + rs[..n])[|old'|..] == rs[..n]
    ensures forall i :: 0 <= i <= n ==> rs[..n][..i] == rs[..i]
    ensures rs[..|rs|] == rs
  {}

  lemma OneMoreSent(rs: seq<Request>, i: nat)
    requires i < |rs|
    ensures rs[..i + 1] == rs[..i] + [rs[i]]
  {}

  class Sender {
    /** 16-bit counter of fragmented messages. */
    var packetId: nat

    /** The pdu ids whose callbacks were registered. */
    var callbacks: seq<nat>

    /** The ids of all fragmented messages so far. */
    ghost var ids: seq<nat>

    constructor ()
      ensures Valid() && packetId == 0 && callbacks == [] && ids == []
    {
      packetId, callbacks, ids := 0, [], [];
    }

    ghost predicate Valid()
      reads `packetId, `ids
    {
      packetId == |ids| % 0x1_0000 && forall i :: 0 <= i < |ids| ==> ids[i] == IdOf(i)
    }

    /** The request carries the given fragment; only a last one may be tracked. */
    method FillTxFragRequest(apdu: seq<byte>, h: Header, txOptions: bv8, fullPacketId: nat, fragOffset: nat,
                             lastFrag: bool)
      returns (r: Request)
      requires fragOffset < DSAP_FRAG_LENGTH_RANGE
      ensures forall src: nat :: Carries(r, Fragment(Key(src, fullPacketId), fragOffset, apdu, lastFrag), h, txOptions)
      ensures r.TxFrag? && r.offsetFlag < 0x1_0000 && (r.offsetFlag / 0x1000) % 8 == 0
    {
      var options := txOptions;
      if !lastFrag {
        // Intermediate fragments are never tracked.
        options := options & 0xFE;
      }
      r := TxFrag(h, options, fullPacketId, OffsetFlag(fragOffset, lastFrag), apdu);
      ClearTracking(txOptions);
      forall src: nat
        ensures Carries(r, Fragment(Key(src, fullPacketId), fragOffset, apdu, lastFrag), h, txOptions)
      {
        OffsetFlagRoundTrip(src, fullPacketId, fragOffset, lastFrag, apdu);
      }
    }

    method SendFragments(buffer: seq<byte>, mtu: nat, h: Header, txOptions: bv8, id: nat, link: Link) returns (res: int)
      requires 1 <= mtu <= MAX_APDU_DSAP_SIZE && mtu < |buffer| <= MAX_FULL_PACKET_SIZE
      modifies link
      ensures var rs := FragRequests(Message(buffer, mtu), 0, h, txOptions, id);
              && res == RunCode(rs, old(link.answers))
              && link.sent == old(link.sent) + rs[..SentCount(rs, old(link.answers))]
    {
      hide OffsetOf, OffsetFlag, RunCode, SentCount, Progress, FragRequests, FragmentsNeeded, LastFragmentSize, Carries;
      var fragments := FragmentsNeeded(|buffer|, mtu);
      var lastFragmentSize := LastFragmentSize(|buffer|, mtu);
      OffsetOfZero(mtu);
      ghost var m := Message(buffer, mtu);
      ghost var rs := FragRequests(m, 0, h, txOptions, id);
      ProgressStart(rs, link.answers);
      var i := 0;
      res := 0;
      while i < fragments
        invariant i <= fragments && res == 0
        invariant i <= |rs|
        invariant Progress(rs, i, old(link.answers), link.answers)
        invariant link.sent == old(link.sent) + rs[..i]
      {
        ghost var o := OffsetOf(i, mtu);
        FragmentBounds(m, i);
        FragRequestsAt(m, 0, h, txOptions, id, i);
        var offset := OffsetOf(i, mtu) % 0x1_0000;
        var last := false;
        var fragLen := mtu;
        if i == fragments - 1 {
          last := true;
          fragLen := lastFragmentSize;
        }
        var r := FillTxFragRequest(buffer[offset..offset + fragLen], h, txOptions, id, offset, last);
        assert r == rs[i] by {
          assert Carries(r, m.Piece(Key(0, id), o), h, txOptions);
          CarriesIff(m, o, h, txOptions, Key(0, id), r);
        }
        ProgressStep(rs, i, old(link.answers), link.answers);
        OneMoreSent(rs, i);
        var a := link.SendRequest(r);
        if a.res < 0 {
          return a.res;
        }
        if a.result != 0 {
          return a.result;
        }
        i := i + 1;
      }
      FragmentBounds(m, fragments);
      FragRequestsAt(m, 0, h, txOptions, id, fragments);
      ProgressEnd(rs, old(link.answers), link.answers);
    }

    method FillTxOptions(tracked: bool, unackCsmaCa: bool, hopLimit: bv8) returns (txOptions: bv8)
      ensures txOptions == TxOptions(tracked, unackCsmaCa, hopLimit)
    {
      txOptions := 0;
      if tracked {
        txOptions := txOptions | 0x1;
      }
      if unackCsmaCa {
        txOptions := txOptions | 0x2;
      }
      txOptions := txOptions | ((hopLimit & 0xf) << 2);
    }

    /** Takes the next id off the 16-bit counter. */
    method NextId() returns (id: nat)
      requires Valid()
      modifies `packetId, `ids
      ensures Valid() && id == IdOf(|old(ids)|) && ids == old(ids) + [id]
    {
      id := packetId % 0x1000;
      packetId := (packetId + 1) % 0x1_0000;
      ids := ids + [id];
    }

    /** The callback is registered exactly when one was given and every request
        was accepted; a fragmented message uses up one id, which all its frames carry. */
    method DataTxRequest(buffer: seq<byte>, mtu: nat, h: Header, tracked: bool, unackCsmaCa: bool, hopLimit: bv8,
                         link: Link)
      returns (res: int)
      requires Valid() && 1 <= mtu <= MAX_APDU_DSAP_SIZE
      modifies this, link
      ensures Valid()
      ensures |buffer| > MAX_FULL_PACKET_SIZE ==> res == ERROR_TOO_LONG && link.sent == old(link.sent)
      ensures |buffer| <= MAX_FULL_PACKET_SIZE ==>
                var txOptions := TxOptions(tracked, unackCsmaCa, hopLimit);
                var rs := Requests(Message(buffer, mtu), h, txOptions, IdOf(|old(ids)|));
                && res == RunCode(rs, old(link.answers))
                && link.sent == old(link.sent) + rs[..SentCount(rs, old(link.answers))]
      ensures old(link.sent) <= link.sent
      ensures |buffer| <= MAX_FULL_PACKET_SIZE ==>
                var sent, answers := link.sent[|old(link.sent)|..], old(link.answers);
                && sent != [] && Apdus(sent) <= buffer && (res == 0 ==> Apdus(sent) == buffer)
                && (|buffer| <= mtu ==> |sent| == 1 && sent[0].TxTt?)
                && (forall i :: 0 <= i < |sent| ==>
                      IsRequestAt(sent, i, Message(buffer, mtu), h, tracked, unackCsmaCa, hopLimit, IdOf(|old(ids)|)))
                && (forall i: nat :: i < |sent| - 1 ==>
                      AnswerAt(answers, i).res >= 0 && AnswerAt(answers, i).result == 0)
                && var last := AnswerAt(answers, |sent| - 1);
                   res == if last.res < 0 then last.res else last.result
      ensures callbacks == old(callbacks) + if tracked && res == 0 then [h.pduId] else []
      ensures if mtu < |buffer| <= MAX_FULL_PACKET_SIZE then
                && ids == old(ids) + [IdOf(|old(ids)|)]
                && forall i :: |old(link.sent)| <= i < |link.sent| ==>
                     link.sent[i].TxFrag? && link.sent[i].fullPacketId == ids[|old(ids)|]
              else ids == old(ids)
    {
      hide FragRequests, RunCode, SentCount, IdOf, Valid, TxOptions, Apdus, AnswerAt, HasOptions;
      ghost var rs, answers := [], link.answers;
      if |buffer| > MAX_FULL_PACKET_SIZE {
        return ERROR_TOO_LONG;
      }
      var txOptions := FillTxOptions(tracked, unackCsmaCa, hopLimit);
      if |buffer| <= mtu {
        var r := TxTt(h, txOptions, buffer);
        rs := [r];
        RunOfOne(r, link.answers);
        var a := link.SendRequest(r);
        res := if a.res < 0 then a.res else a.result;
      } else {
        var id := NextId();
        FramesCarryId(Message(buffer, mtu), h, txOptions, id);
        rs := FragRequests(Message(buffer, mtu), 0, h, txOptions, id);
        res := SendFragments(buffer, mtu, h, txOptions, id, link);
      }
      WhatWasSent(rs, answers, Message(buffer, mtu), h, tracked, unackCsmaCa, hopLimit, IdOf(|old(ids)|));
      SamePart(old(link.sent), rs, SentCount(rs, answers));
      if res == 0 && tracked {
        callbacks := callbacks + [h.pduId];
      }
    }
  }

  lemma WhatWasSent(rs: seq<Request>, answers: seq<Answer>, m: Message, h: Header, tracked: bool, unackCsmaCa: bool,
                    hopLimit: bv8, id: nat)
    requires 1 <= m.mtu <= MAX_APDU_DSAP_SIZE && |m.bytes| <= MAX_FULL_PACKET_SIZE
    requires rs == Requests(m, h, TxOptions(tracked, unackCsmaCa, hopLimit), id)
    ensures var sent, res := rs[..SentCount(rs, answers)], RunCode(rs, answers);
            && sent != [] && Apdus(sent) <= m.bytes && (res == 0 ==> Apdus(sent) == m.bytes)
            && (|m.bytes| <= m.mtu ==> |sent| == 1 && sent[0].TxTt?)
            && (forall i :: 0 <= i < |sent| ==>
                  IsRequestAt(sent, i, m, h, tracked, unackCsmaCa, hopLimit, id))
            && (forall i: nat :: i < |sent| - 1 ==> AnswerAt(answers, i).res >= 0 && AnswerAt(answers, i).result == 0)
            && var last := AnswerAt(answers, |sent| - 1);
               res == if last.res < 0 then last.res else last.result
  {
    hide Requests, TxOptions, Apdus, RunCode, SentCount, AnswerAt, HasOptions;
    RequestsAre(m, h, tracked, unackCsmaCa, hopLimit, id);
    CodeOfLastSent(rs, answers);
    var n := SentCount(rs, answers);
    SamePart([], rs, n);
    assert IsRequestAt(rs, n - 1, m, h, tracked, unackCsmaCa, hopLimit, id);
    forall i | 0 <= i < n
      ensures IsRequestAt(rs[..n], i, m, h, tracked, unackCsmaCa, hopLimit, id)
    {
      assert IsRequestAt(rs, i, m, h, tracked, unackCsmaCa, hopLimit, id);
      assert rs[..n][..i + 1] == rs[..i + 1] && rs[..n][..i] == rs[..i];
    }
  }

  lemma RunOfOne(r: Request, answers: seq<Answer>)
    ensures RunCode([r], answers) == Code(Head(answers)) && SentCount([r], answers) == 1
  {}
}
