/** Framing: escaping a body with its CRC so that it holds no END octet, and
    undoing that in place. */
module Slip {
  import opened Common
  import opened ShiftRegister
  import opened CrcTable

  const END_SLIP_OCTET: byte := 0xC0
  const ESC_SLIP_OCTET: byte := 0xDB
  const END_SUBS_OCTET: byte := 0xDC
  const ESC_SUBS_OCTET: byte := 0xDD

  // ---------------------------------------------------------- specification

  function EscapeByte(b: byte): seq<byte> {
    if b == END_SLIP_OCTET then [ESC_SLIP_OCTET, END_SUBS_OCTET]
    else if b == ESC_SLIP_OCTET then [ESC_SLIP_OCTET, ESC_SUBS_OCTET]
    else [b]
  }

  function Escape(s: seq<byte>): seq<byte> {
    if s == [] then [] else EscapeByte(s[0]) + Escape(s[1..])
  }

  function Substituted(b: byte): byte {
    if b == END_SUBS_OCTET then END_SLIP_OCTET else ESC_SLIP_OCTET
  }

  /** Undoing the escapes; `peek` is the byte behind the frame, which is looked at
      when the frame ends in a lone ESC. */
  function Unescape(s: seq<byte>, peek: byte): seq<byte>
    decreases |s|
  {
    if s == [] then []
    else if s[0] != ESC_SLIP_OCTET then [s[0]] + Unescape(s[1..], peek)
    else if |s| == 1 then [Substituted(peek)]
    else [Substituted(s[1])] + Unescape(s[2..], peek)
  }

  /** The frame ends in an ESC that escapes nothing. */
  predicate Dangling(s: seq<byte>)
    decreases |s|
  {
    if s == [] then false
    else if s[0] != ESC_SLIP_OCTET then Dangling(s[1..])
    else |s| == 1 || Dangling(s[2..])
  }

  /** The CRC, low byte first. */
  function CrcBytes(body: seq<byte>): seq<byte> {
    [Octet(Crc(body), 0), Octet(Crc(body), 1)]
  }

  function Encoded(body: seq<byte>): seq<byte> {
    Escape(body + CrcBytes(body))
  }

  /** OutOfBounds: fewer than two bytes are left for the CRC field, and the source
      looks outside its buffer. */
  datatype Decoding = Body(body: seq<byte>) | WrongCrc | WrongCrcFromHost | OutOfBounds {
    function Code(): int
      requires !OutOfBounds?
    {
      match this
      case Body(b) => |b|
      case WrongCrc => WRONG_CRC
      case WrongCrcFromHost => WRONG_CRC_FROM_HOST
    }
  }

  /** uint16_decode_le */
  function Field(lo: byte, hi: byte): bv16 {
    (lo as bv16) | ((hi as bv16) << 8)
  }

  function CrcField(frame: seq<byte>): bv16
    requires |frame| >= 2
  {
    Field(frame[|frame| - 2], frame[|frame| - 1])
  }

  /** What an unescaped frame means. */
  function Decode(frame: seq<byte>): Decoding
    requires |frame| >= 2
  {
    var body := frame[..|frame| - 2];
    if Crc(body) == CrcField(frame) then Body(body)
    else if CrcField(frame) == 0xFFFF then WrongCrcFromHost
    else WrongCrc
  }

  /** What the 8-bit write counter leaves of an unescaped frame: the bytes since it
      last wrapped around. */
  function Counted(u: seq<byte>): (r: seq<byte>)
    ensures |r| == |u| % 256
  {
    u[|u| - |u| % 256..]
  }

  /** What the source makes of an unescaped frame. */
  function Unpack(u: seq<byte>): Decoding {
    if |u| % 256 < 2 then OutOfBounds else Decode(Counted(u))
  }

  // ------------------------------------------------------------- properties

  lemma {:induction false} EscapeConcat(a: seq<byte>, b: seq<byte>)
    ensures Escape(a + b) == Escape(a) + Escape(b)
  {
    hide EscapeByte;
    if a == [] {
      assert a + b == b;
    } else {
      assert (a + b)[1..] == a[1..] + b && (a + b)[0] == a[0];
      EscapeConcat(a[1..], b);
    }
  }

  lemma {:induction false} EscapeSize(s: seq<byte>)
    ensures |s| <= |Escape(s)| <= 2 * |s|
  {
    if s != [] { EscapeSize(s[1..]); }
  }

  /** An escaped frame contains no END octet. */
  lemma {:induction false} EscapeHasNoEnd(s: seq<byte>)
    ensures END_SLIP_OCTET !in Escape(s)
  {
    if s != [] { EscapeHasNoEnd(s[1..]); }
  }

  /** Unescaping undoes escaping, whatever lies behind the frame. */
  lemma {:induction false} UnescapeEscape(s: seq<byte>, peek: byte)
    ensures Unescape(Escape(s), peek) == s
    ensures !Dangling(Escape(s))
  {
    if s != [] {
      UnescapeEscape(s[1..], peek);
      var e := Escape(s);
      if |EscapeByte(s[0])| == 2 {
        assert e[2..] == Escape(s[1..]);
      } else {
        assert e[1..] == Escape(s[1..]);
      }
    }
  }

  /** Unescaping at most halves a frame. */
  lemma {:induction false} UnescapeSize(s: seq<byte>, peek: byte)
    ensures |s| <= 2 * |Unescape(s, peek)| && |Unescape(s, peek)| <= |s|
    decreases |s|
  {
    if s != [] {
      if s[0] != ESC_SLIP_OCTET {
        UnescapeSize(s[1..], peek);
      } else if |s| > 1 {
        UnescapeSize(s[2..], peek);
      }
    }
  }

  /** What lies behind a frame matters only when it ends in a lone ESC. */
  lemma {:induction false} PeekMattersOnlyWhenDangling(s: seq<byte>, p: byte, q: byte)
    ensures |Unescape(s, p)| == |Unescape(s, q)| <= |s|
    ensures !Dangling(s) ==> Unescape(s, p) == Unescape(s, q)
    decreases |s|
  {
    if s != [] {
      if s[0] != ESC_SLIP_OCTET {
        PeekMattersOnlyWhenDangling(s[1..], p, q);
      } else if |s| > 1 {
        PeekMattersOnlyWhenDangling(s[2..], p, q);
      }
    }
  }

  lemma FieldOfCrcBytes(crc: bv16)
    ensures Field(Octet(crc, 0), Octet(crc, 1)) == crc
  {}

  /** Decoding an encoded frame gives the body back. */
  lemma DecodeEncoded(body: seq<byte>, peek: byte)
    ensures Unescape(Encoded(body), peek) == body + CrcBytes(body)
    ensures Decode(body + CrcBytes(body)) == Body(body)
  {
    hide Crc, Escape, Unescape;
    UnescapeEscape(body + CrcBytes(body), peek);
    FieldOfCrcBytes(Crc(body));
    assert (body + CrcBytes(body))[..|body|] == body;
  }

  /** A frame comes back exactly when its body has at most 253 bytes: with the two
      bytes of the CRC a longer one overruns the 8-bit write counter. */
  lemma ComesBackIffCounted(body: seq<byte>, peek: byte)
    ensures Unpack(Unescape(Encoded(body), peek)) == Body(body) <==> |body| <= 253
    ensures |body| in {254, 255} ==> Unpack(Unescape(Encoded(body), peek)) == OutOfBounds
  {
    hide Crc, Encoded, Unescape, CrcBytes, Unpack, Decode;
    DecodeEncoded(body, peek);
    TwoCrcBytes(body);
    var u := body + CrcBytes(body);
    UnpackCounted(u);
  }

  /** Up to 255 bytes nothing is lost; what comes out is never longer than 253. */
  lemma UnpackCounted(u: seq<byte>)
    ensures 2 <= |u| <= 255 ==> Unpack(u) == Decode(u)
    ensures |u| in {256, 257} ==> Unpack(u) == OutOfBounds
    ensures Unpack(u).Body? ==> |Unpack(u).body| <= 253
  {
    hide Crc, CrcField;
    if |u| <= 255 {
      assert Counted(u) == u;
    }
  }

  lemma TwoCrcBytes(body: seq<byte>)
    ensures |CrcBytes(body)| == 2
  {}

  function Zeros(n: nat): (s: seq<byte>)
    ensures |s| == n
  {
    if n == 0 then [] else [0] + Zeros(n - 1)
  }

  lemma {:induction false} ZerosNeedNoEscape(n: nat)
    ensures Escape(Zeros(n)) == Zeros(n)
  {
    if n > 0 {
      ZerosNeedNoEscape(n - 1);
      assert Zeros(n)[1..] == Zeros(n - 1);
    }
  }

  /** A body of 254 zeros can be sent but not received. */
  lemma LongBodyIsLost(peek: byte)
    ensures var body := Zeros(254);
            && |Escape(body)| <= 255 && |Encoded(body)| <= 2 * |body| + 2
            && Unpack(Unescape(Encoded(body), peek)) == OutOfBounds
  {
    hide Escape, Crc, Unescape, Unpack, Zeros;
    var body := Zeros(254);
    ZerosNeedNoEscape(254);
    EscapeConcat(body, CrcBytes(body));
    EscapeSize(CrcBytes(body));
    ComesBackIffCounted(body, peek);
  }

  /** How many bytes need no escape. */
  function Plain(s: seq<byte>): nat {
    if s == [] then 0 else (if |EscapeByte(s[0])| == 1 then 1 else 0) + Plain(s[1..])
  }

  lemma {:induction false} PlainBytesStaySingle(s: seq<byte>)
    ensures |Escape(s)| == 2 * |s| - Plain(s) && Plain(s) <= |s|
  {
    if s != [] { PlainBytesStaySingle(s[1..]); }
  }

  /** The sender's buffer has room for a frame of twice the body and two bytes.  That
      is enough exactly when two bytes of the body and the CRC need no escape, or
      when the counter has wrapped around. */
  lemma BufferSufficesIff(body: seq<byte>)
    ensures |SentFrame(body)| <= 2 * |body| + 2
            <==> |Escape(body)| > 255 || Plain(body) + Plain(CrcBytes(body)) >= 2
  {
    hide Escape, Crc, CrcBytes, Counted, Plain;
    TwoCrcBytes(body);
    PlainBytesStaySingle(body);
    PlainBytesStaySingle(CrcBytes(body));
    CountedSize(Escape(body));
  }

  lemma CountedSize(u: seq<byte>)
    ensures |Counted(u)| + (if |u| <= 255 then 0 else 256) <= |u|
    ensures |u| <= 255 ==> |Counted(u)| == |u|
  {}

  /** The CRC after one more byte, by the table. */
  lemma CrcStep(s: seq<byte>, b: byte)
    ensures Crc(s + [b]) == Xor(CrcCcittLut(Index(Crc(s), b)), ShlByte(Crc(s)))
  {
    hide Register, AllBits, Bits, CrcCcittLut, Xor, Index, ShlByte;
    OneMoreByte(s, b);
    TableStepIsRegister(Crc(s), b);
  }

  lemma CrcOfNothing()
    ensures Crc([]) == 0xFFFF
  {
    hide Register;
    NoBits();
  }

  lemma CrcOfFour(a: byte, b: byte, c: byte, d: byte)
    ensures Crc([a, b, c, d]) ==
            var r1 := Xor(CrcCcittLut(Index(0xFFFF, a)), ShlByte(0xFFFF));
            var r2 := Xor(CrcCcittLut(Index(r1, b)), ShlByte(r1));
            var r3 := Xor(CrcCcittLut(Index(r2, c)), ShlByte(r2));
            Xor(CrcCcittLut(Index(r3, d)), ShlByte(r3))
  {
    hide Crc, CrcCcittLut, Xor, Index, ShlByte;
    CrcOfNothing();
    CrcStep([], a);
    CrcStep([a], b);
    CrcStep([a, b], c);
    CrcStep([a, b, c], d);
    assert [] + [a] == [a] && [a] + [b] == [a, b] && [a, b] + [c] == [a, b, c] && [a, b, c] + [d] == [a, b, c, d];
  }

  lemma SmallCrc()
    ensures Crc([ESC_SLIP_OCTET, END_SLIP_OCTET, END_SLIP_OCTET, END_SLIP_OCTET]) == 0xDB33
  {
    hide Crc;
    CrcOfFour(ESC_SLIP_OCTET, END_SLIP_OCTET, END_SLIP_OCTET, END_SLIP_OCTET);
  }

  /** A body that the buffer is one byte too small for: its closing END would be
      stored behind the buffer's end. */
  lemma BufferTooSmall()
    ensures var body := [ESC_SLIP_OCTET, END_SLIP_OCTET, END_SLIP_OCTET, END_SLIP_OCTET];
            Crc(body) == 0xDB33 && |SentFrame(body)| == 2 * |body| + 3
  {
    hide Crc, Escape, Plain, Counted, Octet;
    var body := [ESC_SLIP_OCTET, END_SLIP_OCTET, END_SLIP_OCTET, END_SLIP_OCTET];
    SmallCrc();
    PlainOfTwo(ESC_SLIP_OCTET, END_SLIP_OCTET, [END_SLIP_OCTET, END_SLIP_OCTET]);
    PlainOfTwo(END_SLIP_OCTET, END_SLIP_OCTET, []);
    PlainOfTwo(0x33, 0xDB, []);
    assert [ESC_SLIP_OCTET, END_SLIP_OCTET] + [END_SLIP_OCTET, END_SLIP_OCTET] == body;
    assert [END_SLIP_OCTET, END_SLIP_OCTET] + [] == [END_SLIP_OCTET, END_SLIP_OCTET];
    SmallCrcBytes();
    PlainBytesStaySingle(body);
    PlainBytesStaySingle(CrcBytes(body));
  }

  lemma SmallCrcBytes()
    ensures [Octet(0xDB33, 0), Octet(0xDB33, 1)] == [0x33, 0xDB] + []
  {}

  /** The escapes in octets: END is DB DC, ESC is DB DD, anything else is itself. */
  lemma EscapesInOctets(b: byte)
    ensures EscapeByte(b) == if b == 0xC0 then [0xDB, 0xDC] else if b == 0xDB then [0xDB, 0xDD] else [b]
  {}

  lemma EscapeFront(b: byte, s: seq<byte>)
    ensures Escape([b] + s) == EscapeByte(b) + Escape(s)
  {
    assert ([b] + s)[1..] == s;
  }

  /** A known answer: the frame of DB C0 C0 C0, its CRC 0xDB33 low byte first. */
  lemma KnownFrame()
    ensures Encoded([0xDB, 0xC0, 0xC0, 0xC0])
            == [0xDB, 0xDD, 0xDB, 0xDC, 0xDB, 0xDC, 0xDB, 0xDC, 0x33, 0xDB, 0xDD]
  {
    hide Crc, Escape, EscapeByte, Octet;
    SmallCrc();
    SmallCrcBytes();
    EscapesInOctets(0xDB);
    EscapesInOctets(0xC0);
    EscapesInOctets(0x33);
    EscapeOne(0);
    EscapeFront(0xDB, []);
    EscapeFront(0x33, [0xDB]);
    EscapeFront(0xC0, [0x33, 0xDB]);
    EscapeFront(0xC0, [0xC0, 0x33, 0xDB]);
    EscapeFront(0xC0, [0xC0, 0xC0, 0x33, 0xDB]);
    EscapeFront(0xDB, [0xC0, 0xC0, 0xC0, 0x33, 0xDB]);
    assert [0xDB] + [] == [0xDB as byte] && [0x33] + [0xDB] == [0x33, 0xDB as byte];
    assert [0xC0] + [0x33, 0xDB] == [0xC0, 0x33, 0xDB as byte];
    assert [0xC0] + [0xC0, 0x33, 0xDB] == [0xC0, 0xC0, 0x33, 0xDB as byte];
    assert [0xC0] + [0xC0, 0xC0, 0x33, 0xDB] == [0xC0, 0xC0, 0xC0, 0x33, 0xDB as byte];
    assert [0xDB, 0xC0, 0xC0, 0xC0] + ([0x33, 0xDB] + []) == [0xDB] + [0xC0, 0xC0, 0xC0, 0x33, 0xDB as byte];
    assert [0xDB, 0xDD] + ([0xDB, 0xDC] + ([0xDB, 0xDC] + ([0xDB, 0xDC] + ([0x33] + ([0xDB, 0xDD] + [])))))
        == [0xDB, 0xDD, 0xDB, 0xDC, 0xDB, 0xDC, 0xDB, 0xDC, 0x33, 0xDB, 0xDD as byte];
  }

  lemma PlainOfTwo(a: byte, b: byte, s: seq<byte>)
    ensures Plain([a, b] + s) == (if |EscapeByte(a)| == 1 then 1 else 0) + (if |EscapeByte(b)| == 1 then 1 else 0)
                                 + Plain(s)
    ensures Plain([]) == 0
  {
    hide EscapeByte;
    assert ([a, b] + s)[1..] == [b] + s && ([b] + s)[1..] == s;
  }

  /** A frame whose CRC field is intact but whose body suffered a burst of at
      most 16 bits is never accepted. */
  lemma DecodeRejectsBurst(body: seq<byte>, corrupted: seq<byte>, p: nat)
    requires |corrupted| == |body| && corrupted != body && p <= 8 * |body|
    requires forall q :: 0 <= q < 8 * |body| && (q < p || p + 16 <= q) ==> AllBits(corrupted)[q] == AllBits(body)[q]
    ensures !Decode(corrupted + CrcBytes(body)).Body?
  {
    hide Crc, AllBits;
    BurstChangesCrc(corrupted, body, p);
    FieldOfCrcBytes(Crc(body));
    assert (corrupted + CrcBytes(body))[..|body|] == corrupted;
  }

  /** In particular, one whose body changed only inside two adjacent bytes. */
  lemma DecodeRejectsTwoByteError(body: seq<byte>, corrupted: seq<byte>, i: nat)
    requires |corrupted| == |body| && corrupted != body && i + 2 <= |body|
    requires corrupted[..i] == body[..i] && corrupted[i + 2..] == body[i + 2..]
    ensures !Decode(corrupted + CrcBytes(body)).Body?
  {
    hide Crc;
    TwoByteErrorChangesCrc(corrupted, body, i);
    FieldOfCrcBytes(Crc(body));
    assert (corrupted + CrcBytes(body))[..|body|] == corrupted;
  }

  // ------------------------------------------------------------ in the buffer

  /** The byte behind the first `len` of a buffer, if there is one. */
  function Behind(s: seq<byte>, len: nat): byte {
    if len < |s| then s[len] else 0
  }

  /** What is still to be unescaped from position `read` on. */
  function Rest(s: seq<byte>, read: nat, len: nat, peek: byte): seq<byte>
    requires len <= |s|
  {
    if read < len then Unescape(s[read..len], peek) else []
  }

  /** One turn of the loop takes one byte, or the two of an escape. */
  lemma RestStep(s: seq<byte>, read: nat, len: nat)
    requires read < len <= |s| && (Dangling(s[read..len]) ==> len < |s|)
    ensures var peek := Behind(s, len);
            if s[read] != ESC_SLIP_OCTET then
              && Rest(s, read, len, peek) == [s[read]] + Rest(s, read + 1, len, peek)
              && (read + 1 < len ==> (Dangling(s[read + 1..len]) ==> len < |s|))
            else
              && read + 1 < |s|
              && Rest(s, read, len, peek) == [Substituted(s[read + 1])] + Rest(s, read + 2, len, peek)
              && (read + 2 < len ==> (Dangling(s[read + 2..len]) ==> len < |s|))
  {
    hide Substituted;
    var todo := s[read..len];
    assert todo[1..] == s[read + 1..len] && todo[0] == s[read];
    if read + 1 < len {
      assert todo[2..] == s[read + 2..len] && todo[1] == s[read + 1];
    }
    UnescapeNothing(s[len..len], Behind(s, len));
  }

  lemma UnescapeNothing(s: seq<byte>, peek: byte)
    requires s == []
    ensures Unescape(s, peek) == []
  {}

  /** A cell of a buffer after `u` was written into it from the start with an 8-bit
      write position: the last byte of `u` that went there, if any did. */
  function FilledAt(before: seq<byte>, u: seq<byte>, k: nat): byte
    requires k < |before|
  {
    var w := |u| % 256;
    if k < w then u[|u| - w + k]
    else if k < 256 && k < |u| then u[|u| - w - 256 + k]
    else before[k]
  }

  function Filled(before: seq<byte>, u: seq<byte>): (r: seq<byte>)
    ensures |r| == |before|
  {
    seq(|before|, k requires 0 <= k < |before| => FilledAt(before, u, k))
  }

  lemma FilledAtStep(before: seq<byte>, u: seq<byte>, b: byte, k: nat)
    requires k < |before| && (|u| < |before| || |before| >= 256)
    ensures FilledAt(before, u + [b], k) == if k == |u| % 256 then b else FilledAt(before, u, k)
  {}

  lemma FilledStep(before: seq<byte>, u: seq<byte>, b: byte)
    requires |u| < |before| || |before| >= 256
    ensures |u| % 256 < |before|
    ensures Filled(before, u)[|u| % 256 := b] == Filled(before, u + [b])
    ensures forall k :: |u| <= k < |before| ==> Filled(before, u)[k] == before[k]
  {
    assert forall k :: |u| <= k < |before| ==> FilledAt(before, u, k) == before[k];
    hide FilledAt;
    forall k | 0 <= k < |before|
      ensures Filled(before, u)[|u| % 256 := b][k] == Filled(before, u + [b])[k]
    {
      FilledAtStep(before, u, b, k);
    }
  }

  lemma FilledMeans(before: seq<byte>, u: seq<byte>)
    requires |u| <= |before| || |before| >= 256
    ensures |u| % 256 <= |before| && Filled(before, u)[..|u| % 256] == Counted(u)
  {
    hide FilledAt;
    forall k | 0 <= k < |u| % 256
      ensures Filled(before, u)[k] == Counted(u)[k]
    {
      FilledAtMeans(before, u, k);
    }
  }

  lemma FilledAtMeans(before: seq<byte>, u: seq<byte>, k: nat)
    requires k < |u| % 256 && k < |before|
    ensures FilledAt(before, u, k) == Counted(u)[k]
  {}

  lemma FilledStart(before: seq<byte>)
    ensures Filled(before, []) == before
  {}

  /** A decoding that has come to position `read` with `done` unescaped. */
  ghost predicate DecodingAt(before: seq<byte>, len: nat, done: seq<byte>, read: nat, cells: seq<byte>)
    requires len <= |before|
  {
    var peek := Behind(before, len);
    && |done| <= read && |done| <= len && cells == Filled(before, done)
    && (read < len ==> (Dangling(before[read..len]) ==> len < |before|))
    && Rest(before, 0, len, peek) == done + Rest(before, read, len, peek)
  }

  lemma DecodingStarts(before: seq<byte>, len: nat)
    requires len <= |before| && (Dangling(before[..len]) ==> len < |before|)
    ensures DecodingAt(before, len, [], 0, before)
  {
    hide Unescape, Filled, Rest;
    FilledStart(before);
    assert before[0..len] == before[..len];
    var rest := Rest(before, 0, len, Behind(before, len));
    assert [] + rest == rest;
  }

  /** The byte that comes next, and where reading goes on. */
  function NextByte(before: seq<byte>, read: nat): byte
    requires read < |before| && (before[read] == ESC_SLIP_OCTET ==> read + 1 < |before|)
  {
    if before[read] == ESC_SLIP_OCTET then Substituted(before[read + 1]) else before[read]
  }

  lemma NextByteIs(before: seq<byte>, read: nat)
    requires read < |before| && (before[read] == ESC_SLIP_OCTET ==> read + 1 < |before|)
    ensures NextByte(before, read) ==
            if before[read] != ESC_SLIP_OCTET then before[read]
            else if before[read + 1] == END_SUBS_OCTET then END_SLIP_OCTET else ESC_SLIP_OCTET
  {}

  lemma CountOneMore(n: nat)
    ensures (n % 256 + 1) % 256 == (n + 1) % 256
  {}

  lemma DecodingGoesOn(before: seq<byte>, len: nat, done: seq<byte>, read: nat, cells: seq<byte>)
    requires len <= |before| && DecodingAt(before, len, done, read, cells) && read < len
    ensures |cells| == |before| && |done| < |before| && cells[read] == before[read]
    ensures before[read] == ESC_SLIP_OCTET ==> read + 1 < |before| && cells[read + 1] == before[read + 1]
    ensures var next := NextByte(before, read);
            DecodingAt(before, len, done + [next], read + (if before[read] == ESC_SLIP_OCTET then 2 else 1),
                       cells[|done| % 256 := next])
  {
    hide Unescape, Dangling, Rest, Filled, Substituted, Behind;
    RestStep(before, read, len);
    var next := NextByte(before, read);
    FilledStep(before, done, next);
    var read' := read + if before[read] == ESC_SLIP_OCTET then 2 else 1;
    OneMoreRest(done, next, Rest(before, read', len, Behind(before, len)));
  }

  lemma DecodingEnds(before: seq<byte>, len: nat, done: seq<byte>, read: nat, cells: seq<byte>)
    requires len <= |before| && DecodingAt(before, len, done, read, cells) && len <= read
    ensures done == Unescape(before[..len], Behind(before, len)) && |done| <= len
    ensures cells == Filled(before, done) && cells[..|done| % 256] == Counted(done)
  {
    hide Unescape, Dangling, Filled, Counted, Behind;
    RestStart(before, len);
    RestEnd(before, read, len, Behind(before, len));
    assert done + [] == done;
    FilledMeans(before, done);
  }

  /** slip_decode_buffer: unescapes a frame in place.  The write position never
      overtakes the read position; it is kept in 8 bits and wraps around. */
  method SlipDecodeBuffer(buffer: array<byte>, len: nat) returns (write: nat)
    requires len <= buffer.Length && (Dangling(buffer[..len]) ==> len < buffer.Length)
    modifies buffer
    ensures var u := Unescape(old(buffer[..len]), old(Behind(buffer[..], len)));
            && |u| <= len && write == |u| % 256
            && buffer[..] == Filled(old(buffer[..]), u)
            && buffer[..write] == Counted(u)
  {
    hide Unescape, Dangling, Filled, Counted, Behind, DecodingAt, NextByte, Substituted;
    ghost var before := buffer[..];
    ghost var done: seq<byte> := [];
    assert before[..len] == buffer[..len];
    DecodingStarts(before, len);
    write := 0;
    var read := 0;
    while read < len
      invariant write == |done| % 256
      invariant DecodingAt(before, len, done, read, buffer[..])
    {
      ghost var cells := buffer[..];
      DecodingGoesOn(before, len, done, read, cells);
      ghost var next := NextByte(before, read);
      NextByteIs(before, read);
      CountOneMore(|done|);
      done := done + [next];
      var current := buffer[read];
      if current == ESC_SLIP_OCTET {
        read := read + 1;
        current := if buffer[read] == END_SUBS_OCTET then END_SLIP_OCTET else ESC_SLIP_OCTET;
      }
      assert current == next;
      buffer[write] := current;
      assert buffer[..] == cells[write := next];
      write := (write + 1) % 256;
      read := read + 1;
    }
    DecodingEnds(before, len, done, read, buffer[..]);
    assert buffer[..write] == buffer[..][..write];
  }

  lemma OneMoreRest(done: seq<byte>, b: byte, rest: seq<byte>)
    ensures done + ([b] + rest) == (done + [b]) + rest
  {}

  lemma RestStart(s: seq<byte>, len: nat)
    requires len <= |s|
    ensures Rest(s, 0, len, Behind(s, len)) == Unescape(s[..len], Behind(s, len))
  {
    assert s[0..len] == s[..len];
  }

  lemma RestEnd(s: seq<byte>, read: nat, len: nat, peek: byte)
    requires len <= |s| && len <= read
    ensures Rest(s, read, len, peek) == []
  {}

  lemma {:induction false} EscapeSplit(s: seq<byte>, i: nat)
    requires i < |s|
    ensures Escape(s[..i + 1]) == Escape(s[..i]) + EscapeByte(s[i])
    ensures Escape(s[..i + 1]) <= Escape(s)
  {
    hide EscapeByte, Escape;
    assert s[..i + 1] == s[..i] + [s[i]];
    EscapeConcat(s[..i], [s[i]]);
    EscapeOne(s[i]);
    assert s == s[..i + 1] + s[i + 1..];
    EscapeConcat(s[..i + 1], s[i + 1..]);
  }

  lemma EscapeOne(b: byte)
    ensures Escape([b]) == EscapeByte(b) && Escape([]) == []
  {}

  /** `s` with `data` written over it at `start`. */
  function Patch(s: seq<byte>, start: nat, data: seq<byte>): (r: seq<byte>)
    requires start + |data| <= |s|
    ensures |r| == |s|
  {
    s[..start] + data + s[start + |data|..]
  }

  lemma PatchOn(s: seq<byte>, start: nat, data: seq<byte>, more: seq<byte>)
    requires start + |data| + |more| <= |s|
    ensures Patch(Patch(s, start, data), start + |data|, more) == Patch(s, start, data + more)
  {}

  lemma PatchNothing(s: seq<byte>, start: nat)
    requires start <= |s|
    ensures Patch(s, start, []) == s
  {}

  /** The 8-bit write position stays inside `room` cells for `n` bytes. */
  predicate Fits(n: nat, room: nat) {
    n <= room || room >= 256
  }

  /** A buffer after `u` was written into it from position `start` on, with an
      8-bit write position. */
  function Laid(before: seq<byte>, start: nat, u: seq<byte>): (r: seq<byte>)
    requires start <= |before|
    ensures |r| == |before|
  {
    before[..start] + Filled(before[start..], u)
  }

  lemma LaidStart(before: seq<byte>, start: nat)
    requires start <= |before|
    ensures Laid(before, start, []) == before
  {
    hide Filled;
    FilledStart(before[start..]);
  }

  lemma LaidStep(before: seq<byte>, start: nat, u: seq<byte>, b: byte)
    requires start <= |before| && Fits(|u| + 1, |before| - start)
    ensures start + |u| % 256 < |before|
    ensures Laid(before, start, u)[start + |u| % 256 := b] == Laid(before, start, u + [b])
  {
    hide Filled;
    FilledStep(before[start..], u, b);
  }

  /** The last bytes written are at the start; fewer than 256 are all there. */
  lemma LaidMeans(before: seq<byte>, start: nat, u: seq<byte>)
    requires start <= |before| && Fits(|u|, |before| - start)
    ensures start + |u| % 256 <= |before|
    ensures Laid(before, start, u)[start..start + |u| % 256] == Counted(u)
    ensures Laid(before, start, u)[..start] == before[..start]
    ensures |u| <= 255 ==> start + |u| <= |before| && Laid(before, start, u) == Patch(before, start, u)
  {
    hide FilledAt, Counted;
    FilledMeans(before[start..], u);
    assert Laid(before, start, u)[start..start + |u| % 256] == Filled(before[start..], u)[..|u| % 256];
    if |u| <= 255 { FilledIsPatch(before[start..], u); }
  }

  lemma FilledIsPatch(before: seq<byte>, u: seq<byte>)
    requires |u| <= 255 && |u| <= |before|
    ensures Filled(before, u) == u + before[|u|..]
  {}

  /** Writes one byte when there is room; `write` counts the bytes of this frame in
      8 bits. */
  method PutByte(b: byte, out: array<byte>, start: nat, write: nat, ghost before: seq<byte>, ghost done: seq<byte>)
    returns (write': int)
    requires |before| == out.Length && start <= out.Length && Fits(|done|, out.Length - start)
    requires out[..] == Laid(before, start, done) && write == |done| % 256
    modifies out
    ensures if Fits(|done| + 1, out.Length - start) then
              write' == |done + [b]| % 256 && out[..] == Laid(before, start, done + [b])
            else
              write' == WRONG_BUFFER_SIZE && |done| == out.Length - start && out[..] == Laid(before, start, done)
  {
    hide Laid;
    if write >= out.Length - start {
      return WRONG_BUFFER_SIZE;
    }
    LaidStep(before, start, done, b);
    CountOneMore(|done|);
    ghost var cells := out[..];
    out[start + write] := b;
    CellSet(cells, out, start + write, b);
    return (write + 1) % 256;
  }

  lemma CellSet(cells: seq<byte>, out: array<byte>, i: nat, b: byte)
    requires |cells| == out.Length && i < out.Length && out[i] == b
    requires forall k :: 0 <= k < out.Length && k != i ==> out[k] == cells[k]
    ensures out[..] == cells[i := b]
  {}

  /** Writes one byte, escaped, or as much of that as there is room for. */
  method PutEscaped(b: byte, out: array<byte>, start: nat, write: nat, ghost before: seq<byte>, ghost done: seq<byte>)
    returns (write': int)
    requires |before| == out.Length && start <= out.Length && Fits(|done|, out.Length - start)
    requires out[..] == Laid(before, start, done) && write == |done| % 256
    modifies out
    ensures var room, all := out.Length - start, done + EscapeByte(b);
            if Fits(|all|, room) then write' == |all| % 256 && out[..] == Laid(before, start, all)
            else write' == WRONG_BUFFER_SIZE && room <= |all| && out[..] == Laid(before, start, all[..room])
  {
    hide Laid, EscapeByte;
    write' := write;
    var current := b;
    ghost var first: seq<byte> := [];
    EscapeParts(b);
    NothingFirst(done, EscapeByte(b));
    if current == END_SLIP_OCTET || current == ESC_SLIP_OCTET {
      write' := PutByte(ESC_SLIP_OCTET, out, start, write', before, done);
      if write' < 0 {
        return;
      }
      current := if current == END_SLIP_OCTET then END_SUBS_OCTET else ESC_SUBS_OCTET;
      first := [ESC_SLIP_OCTET];
    }
    OneThenOther(done, first, current);
    write' := PutByte(current, out, start, write', before, done + first);
  }

  lemma EscapeParts(b: byte)
    ensures EscapeByte(b) ==
            if b == END_SLIP_OCTET then [ESC_SLIP_OCTET] + [END_SUBS_OCTET]
            else if b == ESC_SLIP_OCTET then [ESC_SLIP_OCTET] + [ESC_SUBS_OCTET]
            else [] + [b]
  {}

  lemma NothingFirst(done: seq<byte>, more: seq<byte>)
    ensures done + [] == done && (done + more)[..|done|] == done
  {}

  lemma OneThenOther(done: seq<byte>, first: seq<byte>, b: byte)
    ensures done + first + [b] == done + (first + [b])
    ensures (done + (first + [b]))[..|done| + |first|] == done + first
  {}

  /** slip_encode_buffer: escapes `src` into `out` from position `start` on, or as
      much of it as there is room for.  The write position is kept in 8 bits and
      wraps around, so that 256 cells are room for anything. */
  method SlipEncodeBuffer(src: seq<byte>, out: array<byte>, start: nat) returns (write: int)
    requires start <= out.Length
    modifies out
    ensures var room := out.Length - start;
            if Fits(|Escape(src)|, room) then
              write == |Escape(src)| % 256 && out[..] == Laid(old(out[..]), start, Escape(src))
            else
              && write == WRONG_BUFFER_SIZE && room <= |Escape(src)|
              && out[..] == Laid(old(out[..]), start, Escape(src)[..room])
  {
    hide Escape, EscapeByte, Laid;
    ghost var before := out[..];
    EscapeOne(0);
    LaidStart(before, start);
    assert src[..0] == [] && src[..|src|] == src;
    write := 0;
    var read := 0;
    while read < |src|
      invariant read <= |src| && write == |Escape(src[..read])| % 256
      invariant Fits(|Escape(src[..read])|, out.Length - start)
      invariant out[..] == Laid(before, start, Escape(src[..read]))
    {
      EscapeSplit(src, read);
      write := PutEscaped(src[read], out, start, write, before, Escape(src[..read]));
      if write < 0 {
        PrefixOfPrefix(Escape(src[..read + 1]), Escape(src), out.Length - start);
        return;
      }
      read := read + 1;
    }
  }

  lemma PrefixOfPrefix(s: seq<byte>, t: seq<byte>, n: nat)
    requires s <= t && n <= |s|
    ensures s[..n] == t[..n]
  {}

  /** What is sent for a body: its escaped bytes since the 8-bit counter last
      wrapped around, and the CRC. */
  function SentFrame(body: seq<byte>): seq<byte> {
    Counted(Escape(body)) + Escape(CrcBytes(body))
  }

  /** It is the encoded body exactly when the counter does not wrap around. */
  lemma SentIsEncodedIff(body: seq<byte>)
    ensures SentFrame(body) == Encoded(body) <==> |Escape(body)| <= 255
  {
    hide Escape, Crc, CrcBytes, Encoded;
    EncodedParts(body);
    if |Escape(body)| <= 255 {
      assert Counted(Escape(body)) == Escape(body);
    } else {
      assert |SentFrame(body)| < |Encoded(body)|;
    }
  }

  /** There is room for the escaped body and for the whole frame. */
  predicate HasRoom(body: seq<byte>, room: nat) {
    Fits(|Escape(body)|, room) && |SentFrame(body)| <= room
  }

  /** The end of Slip_encode: the CRC, low byte first, each byte escaped.  `size` is
      negative when there is no room. */
  method EncodeCrc(crc: bv16, out: array<byte>, start: nat) returns (size: int)
    requires start <= out.Length
    modifies out
    ensures var field := Escape([Octet(crc, 0), Octet(crc, 1)]);
            if start + |field| <= out.Length then
              size == |field| && out[..] == Patch(old(out[..]), start, field)
            else size < 0
  {
    hide Escape, Octet, Patch, Laid, Fits;
    ghost var before, field := out[..], [Octet(crc, 0), Octet(crc, 1)];
    EscapeOne(0);
    PatchNothing(before, start);
    assert field[..0] == [] && field[..2] == field;
    size := 0;
    var i := 0;
    while i < 2
      invariant 0 <= i <= 2
      invariant size == |Escape(field[..i])| && start + size <= out.Length
      invariant out[..] == Patch(before, start, Escape(field[..i]))
    {
      ghost var cells := out[..];
      EscapeSplit(field, i);
      EscapeOne(field[i]);
      EscapeSize([field[i]]);
      SmallFits(|Escape([field[i]])|, out.Length - start - size);
      var temp := Octet(crc, i);
      var one := SlipEncodeBuffer([temp], out, start + size);
      if one < 0 {
        return one;
      }
      PatchOn(before, start, Escape(field[..i]), Escape([field[i]]));
      SmallIsPatch(cells, start + size, Escape([field[i]]));
      size := size + one;
      i := i + 1;
    }
  }

  /** Slip_encode: the body escaped, followed by its CRC escaped.  Nothing is said
      when there is no room for them: the source takes the error -6 for a size and
      goes on in front of its buffer. */
  method SlipEncode(bufferIn: array<byte>, lenIn: nat, out: array<byte>, start: nat) returns (totalSize: int)
    requires bufferIn != out && lenIn <= bufferIn.Length && start <= out.Length
    modifies out
    ensures HasRoom(bufferIn[..lenIn], out.Length - start) ==>
              && totalSize == |SentFrame(bufferIn[..lenIn])|
              && out[start..start + totalSize] == SentFrame(bufferIn[..lenIn]) && out[..start] == old(out[..start])
  {
    hide Escape, Crc, Octet, Patch, Laid, Counted, Fits;
    var body := bufferIn[..lenIn];
    ghost var before := out[..];
    var crc := CrcFromBuffer(bufferIn, lenIn);
    totalSize := SlipEncodeBuffer(body, out, start);
    if totalSize < 0 {
      totalSize := *;
      return;
    }
    LaidMeans(before, start, Escape(body));
    ghost var laid := out[..];
    var size := EncodeCrc(crc, out, start + totalSize);
    if size < 0 {
      totalSize := *;
      return;
    }
    PatchMeans(laid, start, totalSize, Escape(CrcBytes(body)));
    totalSize := totalSize + size;
    PartsOf(out, start, totalSize);
    assert before[..start] == old(out[..start]);
  }

  lemma PartsOf(out: array<byte>, start: nat, size: nat)
    requires start + size <= out.Length
    ensures out[..][start..start + size] == out[start..start + size] && out[..][..start] == out[..start]
  {}

  lemma SmallFits(n: nat, room: nat)
    requires n <= 2
    ensures Fits(n, room) <==> n <= room
  {}

  lemma SmallIsPatch(before: seq<byte>, start: nat, u: seq<byte>)
    requires |u| <= 2 && start + |u| <= |before|
    ensures Fits(|u|, |before| - start) && |u| % 256 == |u|
    ensures Laid(before, start, u) == Patch(before, start, u)
  {
    hide Patch, Laid, Counted;
    LaidMeans(before, start, u);
  }

  lemma PatchMeans(s: seq<byte>, start: nat, size: nat, data: seq<byte>)
    requires start + size + |data| <= |s|
    ensures var r := Patch(s, start + size, data);
            r[start..start + size + |data|] == s[start..start + size] + data && r[..start] == s[..start]
  {}

  lemma EncodedParts(body: seq<byte>)
    ensures Encoded(body) == Escape(body) + Escape(CrcBytes(body))
  {
    hide Escape, Crc, Octet;
    EscapeConcat(body, CrcBytes(body));
  }

  /** What is left of an escaped message from some position on unescapes to
      correspondingly less. */
  lemma {:induction false} SuffixIsShort(s: seq<byte>, j: nat, peek: byte)
    requires j <= |Escape(s)|
    ensures 2 * |Unescape(Escape(s)[j..], peek)| <= 2 * |s| - j + 1
    decreases |s|
  {
    var e := Escape(s);
    if j == 0 {
      assert e[0..] == e;
      UnescapeEscape(s, peek);
    } else {
      var first := EscapeByte(s[0]);
      if j >= |first| {
        assert e[j..] == Escape(s[1..])[j - |first|..];
        SuffixIsShort(s[1..], j - |first|, peek);
      } else {
        assert e[1..][1..] == Escape(s[1..]) && e[1..][0] != ESC_SLIP_OCTET;
        UnescapeEscape(s[1..], peek);
      }
    }
  }

  /** A body, whatever its bytes and its length, comes back exactly when its escaped
      form has at most 255 bytes, so that it is sent whole, and it has itself at
      most 253, so that it is received whole. */
  lemma ComesBackIff(body: seq<byte>, peek: byte)
    ensures Unpack(Unescape(SentFrame(body), peek)) == Body(body) <==> |Escape(body)| <= 255 && |body| <= 253
  {
    hide Escape, Crc, CrcBytes, Encoded, Unescape, Unpack, SentFrame;
    SentIsEncodedIff(body);
    if |Escape(body)| <= 255 {
      ComesBackIffCounted(body, peek);
    } else {
      var e, field := Escape(body), CrcBytes(body);
      var lost := |e| - |e| % 256;
      TwoCrcBytes(body);
      EscapeConcat(body, field);
      assert SentFrame(body) == Escape(body + field)[lost..] by { SentIsSuffix(body); }
      SuffixIsShort(body + field, lost, peek);
      UnpackIsShort(Unescape(SentFrame(body), peek));
    }
  }

  lemma SentIsSuffix(body: seq<byte>)
    ensures |Escape(body)| - |Escape(body)| % 256 <= |Escape(body + CrcBytes(body))|
    ensures SentFrame(body) == Escape(body + CrcBytes(body))[|Escape(body)| - |Escape(body)| % 256..]
  {
    hide Escape, Crc, CrcBytes;
    EscapeConcat(body, CrcBytes(body));
  }

  lemma UnpackIsShort(u: seq<byte>)
    ensures Unpack(u).Body? ==> |Unpack(u).body| + 2 <= |u|
  {
    hide Crc, CrcField;
  }

  lemma LowOctet(lo: byte, hi: byte)
    ensures Octet(Field(lo, hi), 0) == lo
  {}

  lemma HighOctet(lo: byte, hi: byte)
    ensures Octet(Field(lo, hi), 1) == hi
  {}

  lemma CountedShort(u: seq<byte>)
    requires |u| <= 255
    ensures Counted(u) == u
  {}

  lemma UnpackIsDecode(u: seq<byte>)
    ensures Unpack(u) == if |u| % 256 < 2 then OutOfBounds else Decode(Counted(u))
  {
    hide Decode, Counted;
  }

  lemma AllOnes()
    ensures Octet(0xFFFF, 0) == 0xFF && Octet(0xFFFF, 1) == 0xFF
  {}

  lemma FieldByBytes(frame: seq<byte>, crc: bv16)
    requires |frame| >= 2
    ensures CrcField(frame) == crc <==> frame[|frame| - 2] == Octet(crc, 0) && frame[|frame| - 1] == Octet(crc, 1)
  {
    hide Octet, Field;
    LowOctet(frame[|frame| - 2], frame[|frame| - 1]);
    HighOctet(frame[|frame| - 2], frame[|frame| - 1]);
    FieldOfCrcBytes(crc);
  }

  /** What becomes of a frame that unescapes to a body and the two bytes of a CRC
      field: it is accepted when the field is the CRC of the body, low byte first;
      otherwise FF FF is the node's answer to a damaged request, and any other field
      is damage of this frame. */
  lemma WhatFieldsMean(u: seq<byte>)
    requires 2 <= |u| <= 255
    ensures !Unpack(u).OutOfBounds?
    ensures var body, lo, hi, d := u[..|u| - 2], u[|u| - 2], u[|u| - 1], Unpack(u);
            if lo == Octet(Crc(body), 0) && hi == Octet(Crc(body), 1) then
              d == Body(body) && (lo == 0xFF && hi == 0xFF ==> Crc(body) == 0xFFFF)
            else if lo == 0xFF && hi == 0xFF then !d.Body? && d.Code() == WRONG_CRC_FROM_HOST && Crc(body) != 0xFFFF
            else !d.Body? && d.Code() == WRONG_CRC
    ensures Octet(0xFFFF, 0) == 0xFF && Octet(0xFFFF, 1) == 0xFF
  {
    hide Crc, Counted, Octet, CrcField;
    UnpackCounted(u);
    AllOnes();
    FieldByBytes(u, Crc(u[..|u| - 2]));
    FieldByBytes(u, 0xFFFF);
  }

  /** Slip_decode: unescapes in place and checks the CRC; the body is left at the
      start of the buffer.  Nothing is said of the result when the source looks
      outside its buffer. */
  method SlipDecode(buffer: array<byte>, len: nat) returns (res: int)
    requires len <= buffer.Length && (Dangling(buffer[..len]) ==> len < buffer.Length)
    modifies buffer
    ensures var u := Unescape(old(buffer[..len]), old(Behind(buffer[..], len)));
            2 <= |u| <= 255 ==>
              var body, lo, hi := u[..|u| - 2], u[|u| - 2], u[|u| - 1];
              var intact := lo == Octet(Crc(body), 0) && hi == Octet(Crc(body), 1);
              && (res == WRONG_CRC_FROM_HOST <==> lo == 0xFF && hi == 0xFF && Crc(body) != 0xFFFF)
              && (res == WRONG_CRC <==> !intact && !(lo == 0xFF && hi == 0xFF))
              && (res >= 0 <==> intact)
              && (intact ==> res == |body| <= len && buffer[..res] == body)
    ensures var decoding := Unpack(Unescape(old(buffer[..len]), old(Behind(buffer[..], len))));
            !decoding.OutOfBounds? ==>
              && res == decoding.Code()
              && (decoding.Body? ==> res <= len && buffer[..res] == decoding.body)
  {
    hide Unescape, Dangling, Crc, Filled, Counted, Octet, Unpack, Field;
    ghost var u := Unescape(buffer[..len], Behind(buffer[..], len));
    var decodedLen := SlipDecodeBuffer(buffer, len);
    UnpackIsDecode(u);
    if 2 <= |u| <= 255 {
      WhatFieldsMean(u);
      CountedShort(u);
    }
    if decodedLen < 2 {
      res := *;
      return;
    }
    ghost var frame := buffer[..decodedLen];
    assert frame[..decodedLen - 2] == buffer[..decodedLen - 2];
    var crc := CrcFromBuffer(buffer, decodedLen - 2);
    var crcFromFrame := Field(buffer[decodedLen - 2], buffer[decodedLen - 1]);
    assert crcFromFrame == CrcField(frame);
    if crc != crcFromFrame {
      if crcFromFrame == 0xFFFF {
        return WRONG_CRC_FROM_HOST;
      } else {
        return WRONG_CRC;
      }
    }
    return decodedLen - 2;
  }
}
