/** Frames on the serial line: sending one, and finding the next one in what is
    received. */
module SlipLine {
  import opened Common
  import opened ShiftRegister
  import opened CrcTable
  import opened Slip

  /** What one call of the read function gives. */
  datatype ReadEvent = Byte(b: byte) | NoByte | ReadError

  /** The outcome of collecting the next segment between END octets. */
  datatype Taken = Segment(bytes: seq<byte>) | TimedOut | TooLong

  function EncodedBufferSize(len: nat): nat {
    2 * len + 2 + 4
  }

  class SerialPort {
    var tx: seq<byte>
    var rx: seq<ReadEvent>

    constructor (rx: seq<ReadEvent>)
      ensures tx == [] && this.rx == rx
    {
      tx, this.rx := [], rx;
    }

    /** Writes everything, or fails and writes nothing. */
    method Write(s: seq<byte>, ok: bool) returns (written: int)
      modifies this`tx
      ensures written == (if ok then |s| else -1)
      ensures tx == (if ok then old(tx) + s else old(tx))
    {
      if ok {
        tx := tx + s;
        return |s|;
      }
      return -1;
    }

    /** The next event; nothing arrives once the line is silent. */
    method Read() returns (e: ReadEvent)
      modifies this`rx
      ensures e == (if old(rx) == [] then NoByte else old(rx)[0])
      ensures rx == (if old(rx) == [] then [] else old(rx)[1..])
    {
      if rx == [] {
        return NoByte;
      }
      e := rx[0];
      rx := rx[1..];
    }
  }

  /** A frame between three END octets and one. */
  function Delimited(frame: seq<byte>): seq<byte> {
    [END_SLIP_OCTET, END_SLIP_OCTET, END_SLIP_OCTET] + frame + [END_SLIP_OCTET]
  }

  /** A frame on the wire. */
  function Wire(body: seq<byte>): seq<byte> {
    Delimited(Encoded(body))
  }

  /** Slip_send_buffer: puts the delimited frame on the line, which is that of the
      body exactly when its escaped form has at most 255 bytes.  Nothing is said of
      a frame that is too long for the source's buffer; `BufferSufficesIff` says
      which are not. */
  method SlipSendBuffer(buffer: array<byte>, len: nat, port: SerialPort, ok: bool) returns (res: int)
    requires len <= buffer.Length
    modifies port`tx
    ensures |SentFrame(buffer[..len])| <= 2 * len + 2 ==>
              && res == (if ok then 0 else GEN_ERROR)
              && port.tx == (if ok then old(port.tx) + Delimited(SentFrame(buffer[..len])) else old(port.tx))
    ensures Delimited(SentFrame(buffer[..len])) == Wire(buffer[..len]) <==> |Escape(buffer[..len])| <= 255
  {
    hide Escape, Encoded, SentFrame;
    ghost var body := buffer[..len];
    var encodedBuffer := new byte[EncodedBufferSize(len)];
    var i := 0;
    while i < 3
      invariant 0 <= i <= 3 && port.tx == old(port.tx)
      invariant forall k :: 0 <= k < i ==> encodedBuffer[k] == END_SLIP_OCTET
    {
      encodedBuffer[i] := END_SLIP_OCTET;
      i := i + 1;
    }
    EscapeSize(body);
    SentIsEncodedIff(body);
    assert encodedBuffer[..3] == [END_SLIP_OCTET, END_SLIP_OCTET, END_SLIP_OCTET];
    var size := SlipEncode(buffer, len, encodedBuffer, 3);
    SameDelimited(SentFrame(body), Encoded(body));
    if size < 0 || size + 3 >= encodedBuffer.Length {
      res := *;
      return;
    }
    encodedBuffer[size + 3] := END_SLIP_OCTET;
    assert encodedBuffer[..size + 4] == encodedBuffer[..3] + encodedBuffer[3..size + 3] + [END_SLIP_OCTET];
    var written := port.Write(encodedBuffer[..size + 4], ok);
    if written != size + 4 {
      return GEN_ERROR;
    }
    return 0;
  }

  lemma SameDelimited(a: seq<byte>, b: seq<byte>)
    ensures Delimited(a) == Delimited(b) <==> a == b
  {
    if Delimited(a) == Delimited(b) {
      assert a == Delimited(a)[3..|Delimited(a)| - 1] == Delimited(b)[3..|Delimited(b)| - 1] == b;
    }
  }

  // ------------------------------------------------------------- receiving

  /** Collecting a segment: bytes are skipped until the first END; a segment of
      fewer than four bytes is dropped and its END taken for the start of a frame. */
  function Take(rx: seq<ReadEvent>, started: bool, acc: seq<byte>, capacity: nat): (r: (Taken, seq<ReadEvent>))
    ensures r.0.Segment? ==> 4 <= |r.0.bytes| && (|acc| <= capacity ==> |r.0.bytes| <= capacity)
    decreases |rx|
  {
    if rx == [] || rx[0] == NoByte then
      (TimedOut, if rx == [] then [] else rx[1..])
    else if rx[0] == ReadError then
      Take(rx[1..], started, acc, capacity)
    else if rx[0].b == END_SLIP_OCTET then
      if started && |acc| >= 4 then (Segment(acc), rx[1..])
      else Take(rx[1..], true, if started then [] else acc, capacity)
    else if started then
      if |acc| + 1 > capacity then (TooLong, rx[1..])
      else Take(rx[1..], true, acc + [rx[0].b], capacity)
    else
      Take(rx[1..], false, acc, capacity)
  }

  /** The end of Slip_get_buffer: the segment in the receiving buffer is decoded, and
      its body copied when it fits. */
  method FinishFrame(receiving: array<byte>, size: nat, buffer: array<byte>, len: nat)
    returns (res: int, ghost peek: byte)
    requires receiving != buffer && 4 <= size < receiving.Length
    requires len <= buffer.Length && EncodedBufferSize(len) < receiving.Length
    modifies receiving, buffer
    ensures var u := Unescape(old(receiving[..size]), peek);
            var d := Unpack(u);
            if d.OutOfBounds? then |u| >= 256
            else
              && res == d.Code()
              && (d.Body? && 0 < |d.body| <= len ==> buffer[..res] == d.body)
              && (d.Body? && 0 < |d.body| <= len ==> buffer[res..] == old(buffer[res..]))
              && (!(d.Body? && 0 < |d.body| <= len) ==> buffer[..] == old(buffer[..]))
    ensures var u := Unescape(old(receiving[..size]), peek);
            2 <= |u| <= 255 ==>
              var body, lo, hi := u[..|u| - 2], u[|u| - 2], u[|u| - 1];
              && (res == WRONG_CRC_FROM_HOST <==> lo == 0xFF && hi == 0xFF && Crc(body) != 0xFFFF)
              && (res == WRONG_CRC <==> !IsCrcOf(lo, hi, body) && !(lo == 0xFF && hi == 0xFF))
              && (res >= 0 <==> IsCrcOf(lo, hi, body))
              && (res >= 0 ==> res == |body| && (0 < |body| <= len ==> buffer[..res] == body))
  {
    hide Unescape, Unpack, Crc, Octet;
    peek := receiving[size];
    assert receiving[..][..size] == receiving[..size];
    ShortSegmentIsInBounds(receiving[..size], peek);
    res := SlipDecode(receiving, size);
    if res > 0 && res <= len {
      forall k | 0 <= k < res {
        buffer[k] := receiving[k];
      }
      assert buffer[..res] == receiving[..res];
    }
  }

  /** These are the two bytes of the body's CRC, low byte first. */
  predicate IsCrcOf(lo: byte, hi: byte, body: seq<byte>) {
    lo == Octet(Crc(body), 0) && hi == Octet(Crc(body), 1)
  }

  /** Slip_get_buffer: the next frame, unescaped and checked; the body is copied
      when it fits.  `peek` is whatever lies behind the segment in the receiving
      buffer.  Only a segment that unescapes to 256 bytes or more can make the
      source look outside that buffer; nothing is said of the result then. */
  method SlipGetBuffer(port: SerialPort, buffer: array<byte>, len: nat) returns (res: int, ghost peek: byte)
    requires len <= buffer.Length
    modifies port`rx, buffer
    ensures var (t, rest) := Take(old(port.rx), false, [], EncodedBufferSize(len));
            && port.rx == rest
            && match t
               case TimedOut => res == TIMEOUT_ERROR && buffer[..] == old(buffer[..])
               case TooLong => res == GEN_ERROR && buffer[..] == old(buffer[..])
               case Segment(s) =>
                 var d := Unpack(Unescape(s, peek));
                 if d.OutOfBounds? then |Unescape(s, peek)| >= 256
                 else
                   && res == d.Code()
                   && (d.Body? && 0 < |d.body| <= len ==> buffer[..res] == d.body)
                   && (d.Body? && 0 < |d.body| <= len ==> buffer[res..] == old(buffer[res..]))
                   && (!(d.Body? && 0 < |d.body| <= len) ==> buffer[..] == old(buffer[..]))
    ensures var (t, _) := Take(old(port.rx), false, [], EncodedBufferSize(len));
            t.Segment? && 2 <= |Unescape(t.bytes, peek)| <= 255 ==>
              var u := Unescape(t.bytes, peek);
              var body, lo, hi := u[..|u| - 2], u[|u| - 2], u[|u| - 1];
              && (res == WRONG_CRC_FROM_HOST <==> lo == 0xFF && hi == 0xFF && Crc(body) != 0xFFFF)
              && (res == WRONG_CRC <==> !IsCrcOf(lo, hi, body) && !(lo == 0xFF && hi == 0xFF))
              && (res >= 0 <==> IsCrcOf(lo, hi, body))
              && (res >= 0 ==> res == |body| && (0 < |body| <= len ==> buffer[..res] == body))
  {
    hide Unescape, Unpack, Crc, Octet, IsCrcOf;
    peek := 0;
    var capacity := EncodedBufferSize(len);
    // One more cell than the source has: the source stores a byte before it
    // checks that the segment is not too long.
    var receiving := new byte[capacity + 1];
    var size := 0;
    var started := false;
    ghost var all := Take(port.rx, false, [], capacity);
    while true
      invariant size <= capacity && (!started ==> size == 0)
      invariant Take(port.rx, started, receiving[..size], capacity) == all
      invariant buffer[..] == old(buffer[..])
      decreases |port.rx|
    {
      ghost var before := port.rx;
      var e := port.Read();
      if e == NoByte {
        return TIMEOUT_ERROR, peek;
      } else if e == ReadError {
        // Logged; the loop goes on.
      } else if e.b == END_SLIP_OCTET {
        if started {
          if size < 4 {
            size := 0;
            continue;
          }
          break;
        } else {
          started := true;
        }
      } else if started {
        ghost var acc := receiving[..size];
        receiving[size] := e.b;
        size := size + 1;
        assert receiving[..size] == acc + [e.b];
        if size > capacity {
          return GEN_ERROR, peek;
        }
      }
    }
    assert all == (Segment(receiving[..size]), port.rx);
    res, peek := FinishFrame(receiving, size, buffer, len);
  }

  /** Four escaped bytes or more give at least two: only overrunning the 8-bit
      counter leaves too few. */
  lemma ShortSegmentIsInBounds(s: seq<byte>, peek: byte)
    requires 4 <= |s|
    ensures 2 <= |Unescape(s, peek)|
    ensures Unpack(Unescape(s, peek)).OutOfBounds? ==> |Unescape(s, peek)| >= 256
  {
    hide Unescape, Crc, CrcField;
    UnescapeSize(s, peek);
  }

  // ------------------------------------------------- frames are found again

  function Bytes(s: seq<byte>): (r: seq<ReadEvent>)
    ensures |r| == |s| && forall i :: 0 <= i < |s| ==> r[i] == Byte(s[i])
  {
    seq(|s|, i requires 0 <= i < |s| => Byte(s[i]))
  }

  /** Bytes between frames that cannot be taken for a frame: anything up to the
      first END, and then segments of fewer than four bytes.  `n` is the length
      of the segment under way. */
  predicate Harmless(s: seq<byte>, started: bool, n: nat) {
    if s == [] then !started || n < 4
    else if s[0] == END_SLIP_OCTET then (!started || n < 4) && Harmless(s[1..], true, 0)
    else Harmless(s[1..], started, if started then n + 1 else 0)
  }

  /** Noise is skipped, up to the END that opens the next frame. */
  lemma {:induction false} TakeSkipsNoise(s: seq<byte>, started: bool, acc: seq<byte>, rest: seq<ReadEvent>,
                                          capacity: nat)
    requires Harmless(s, started, |acc|) && (!started ==> acc == []) && 4 <= capacity
    requires |acc| <= capacity
    ensures Take(Bytes(s) + End + rest, started, acc, capacity) == Take(rest, true, [], capacity)
    decreases |s|
  {
    var rx := Bytes(s) + End + rest;
    if s == [] {
      assert rx[1..] == rest;
    } else {
      assert rx[0] == Byte(s[0]) && rx[1..] == Bytes(s[1..]) + End + rest;
      if s[0] == END_SLIP_OCTET {
        TakeSkipsNoise(s[1..], true, [], rest, capacity);
      } else if started {
        HarmlessIsShort(s, |acc|);
        TakeSkipsNoise(s[1..], true, acc + [s[0]], rest, capacity);
      } else {
        TakeSkipsNoise(s[1..], false, [], rest, capacity);
      }
    }
  }

  /** A harmless segment stays below four bytes. */
  lemma {:induction false} HarmlessIsShort(s: seq<byte>, n: nat)
    requires Harmless(s, true, n)
    ensures n < 4
    decreases |s|
  {
    if s != [] && s[0] != END_SLIP_OCTET {
      HarmlessIsShort(s[1..], n + 1);
    }
  }

  /** A segment that holds no END is taken as a whole. */
  lemma {:induction false} TakeWhole(s: seq<byte>, acc: seq<byte>, rest: seq<ReadEvent>, capacity: nat)
    requires END_SLIP_OCTET !in s && 4 <= |acc| + |s| <= capacity
    ensures Take(Bytes(s) + End + rest, true, acc, capacity) == (Segment(acc + s), rest)
    decreases |s|
  {
    var rx := Bytes(s) + End + rest;
    if s == [] {
      assert rx[1..] == rest && acc + s == acc;
    } else {
      assert rx[0] == Byte(s[0]) && rx[1..] == Bytes(s[1..]) + End + rest;
      assert acc + [s[0]] + s[1..] == acc + s;
      TakeWhole(s[1..], acc + [s[0]], rest, capacity);
    }
  }

  lemma BytesConcat(a: seq<byte>, b: seq<byte>)
    ensures Bytes(a + b) == Bytes(a) + Bytes(b)
  {}

  const End: seq<ReadEvent> := [Byte(END_SLIP_OCTET)]

  /** The octets before a frame and the frame, as they are read. */
  lemma FrameEvents(noise: seq<byte>, frame: seq<byte>, rest: seq<ReadEvent>)
    ensures Bytes(noise + Delimited(frame)) + rest == Bytes(noise) + End + (End + (End + (Bytes(frame) + End + rest)))
  {
    hide Bytes;
    var end := [END_SLIP_OCTET];
    BytesOfEnd();
    assert Delimited(frame) == end + (end + (end + (frame + end)));
    BytesConcat(noise, Delimited(frame));
    BytesConcat(end, end + (end + (frame + end)));
    BytesConcat(end, end + (frame + end));
    BytesConcat(end, frame + end);
    BytesConcat(frame, end);
  }

  lemma BytesOfEnd()
    ensures Bytes([END_SLIP_OCTET]) == End && Bytes([]) == []
  {}

  /** One more END at the start of a frame changes nothing. */
  lemma TakeSkipsEnd(rest: seq<ReadEvent>, capacity: nat)
    requires 4 <= capacity
    ensures Take(End + rest, true, [], capacity) == Take(rest, true, [], capacity)
  {
    assert (End + rest)[0] == Byte(END_SLIP_OCTET) && (End + rest)[1..] == rest;
  }

  /** A segment without END that is too short is dropped; its END opens a frame. */
  lemma {:induction false} TakeSkipsShort(s: seq<byte>, acc: seq<byte>, rest: seq<ReadEvent>, capacity: nat)
    requires END_SLIP_OCTET !in s && |acc| + |s| < 4 <= capacity
    ensures Take(Bytes(s) + End + rest, true, acc, capacity) == Take(rest, true, [], capacity)
    decreases |s|
  {
    ShortIsHarmless(s, |acc|);
    TakeSkipsNoise(s, true, acc, rest, capacity);
  }

  lemma {:induction false} ShortIsHarmless(s: seq<byte>, n: nat)
    requires END_SLIP_OCTET !in s && n + |s| < 4
    ensures Harmless(s, true, n)
    decreases |s|
  {
    if s != [] { ShortIsHarmless(s[1..], n + 1); }
  }

  /** After any harmless noise, one call takes the next delimited frame if it has at
      least four bytes, and leaves exactly what follows it; a shorter one is passed
      over, its last END taken for the start of a frame. */
  lemma TakeFrame(noise: seq<byte>, frame: seq<byte>, rest: seq<ReadEvent>, capacity: nat)
    requires Harmless(noise, false, 0) && END_SLIP_OCTET !in frame && |frame| <= capacity && 4 <= capacity
    ensures Take(Bytes(noise + Delimited(frame)) + rest, false, [], capacity)
            == if 4 <= |frame| then (Segment(frame), rest) else Take(rest, true, [], capacity)
  {
    hide Take, Harmless, Bytes, Delimited, End;
    FrameEvents(noise, frame, rest);
    var last := Bytes(frame) + End + rest;
    TakeSkipsNoise(noise, false, [], End + (End + last), capacity);
    TakeSkipsEnd(End + last, capacity);
    TakeSkipsEnd(last, capacity);
    if 4 <= |frame| {
      TakeWhole(frame, [], rest, capacity);
      assert [] + frame == frame;
    } else {
      TakeSkipsShort(frame, [], rest, capacity);
    }
  }

  /** ... so of the frames sent, a call takes exactly those of at least four bytes. */
  lemma TakeFindsFrame(noise: seq<byte>, body: seq<byte>, rest: seq<ReadEvent>, capacity: nat)
    requires Harmless(noise, false, 0) && |Encoded(body)| <= capacity && 4 <= capacity
    ensures var taken := Take(Bytes(noise + Wire(body)) + rest, false, [], capacity);
            && (taken == (Segment(Encoded(body)), rest) <==> 4 <= |Encoded(body)|)
            && (|Encoded(body)| < 4 ==> taken == Take(rest, true, [], capacity))
  {
    hide Encoded, Harmless, Bytes, Delimited;
    EncodedShape(body);
    TakeFrame(noise, Encoded(body), rest, capacity);
  }

  lemma EncodedShape(body: seq<byte>)
    ensures END_SLIP_OCTET !in Encoded(body) && |body| + 2 <= |Encoded(body)|
    ensures 4 <= |Encoded(body)| ==> body != []
  {
    hide Escape, Crc, Octet;
    EscapeHasNoEnd(body + CrcBytes(body));
    EscapeSize(body + CrcBytes(body));
    if body == [] { EncodedNothing(); }
  }

  lemma EncodedNothing()
    ensures Encoded([]) == [0xFF, 0xFF] && SentFrame([]) == [0xFF, 0xFF]
  {
    hide Crc, Escape;
    CrcOfNothing();
    EncodedParts([]);
    EscapeOne(0xFF);
    EscapeConcat([0xFF], [0xFF]);
    assert CrcBytes([]) == [0xFF] + [0xFF];
  }

  /** A frame that is too short is itself noise: whatever is harmless in front of it
      and behind its last END, the next frame is found. */
  lemma ShortFrameIsSkipped(noise: seq<byte>, short: seq<byte>, more: seq<byte>)
    requires Harmless(noise, false, 0) && |Encoded(short)| < 4 && Harmless(more, true, 0)
    ensures Harmless(noise + Wire(short) + more, false, 0)
  {
    hide Harmless, Encoded;
    var e, end := Encoded(short), [END_SLIP_OCTET];
    EncodedShape(short);
    ShortIsHarmless(e, 0);
    NothingIsHarmless();
    var last := e + (end + more);
    HarmlessConcat(e, more, true, 0);
    HarmlessConcat([], last, true, 0);
    HarmlessConcat([], [] + (end + last), true, 0);
    HarmlessConcat(noise, [] + (end + ([] + (end + last))), false, 0);
    assert noise + Wire(short) + more == noise + (end + ([] + (end + ([] + (end + last)))));
  }

  lemma NothingIsHarmless()
    ensures Harmless([], true, 0)
  {}

  lemma {:induction false} HarmlessConcat(s: seq<byte>, more: seq<byte>, started: bool, n: nat)
    requires Harmless(s, started, n) && Harmless(more, true, 0)
    ensures Harmless(s + ([END_SLIP_OCTET] + more), started, n)
    decreases |s|
  {
    var all := s + ([END_SLIP_OCTET] + more);
    if s == [] {
      assert all[0] == END_SLIP_OCTET && all[1..] == more;
    } else {
      assert all[1..] == s[1..] + ([END_SLIP_OCTET] + more) && all[0] == s[0];
      if s[0] == END_SLIP_OCTET {
        HarmlessConcat(s[1..], more, true, 0);
      } else {
        HarmlessConcat(s[1..], more, started, if started then n + 1 else 0);
      }
    }
  }

  /** From sender to receiver, for one body of whatever bytes and length, and a
      caller's buffer of any size that can hold it: the next call returns it if and
      only if its frame has at least four bytes, its escaped form at most 255, and
      it has itself at most 253. */
  lemma BodyComesBackIff(noise: seq<byte>, body: seq<byte>, len: nat, peek: byte)
    requires Harmless(noise, false, 0) && |body| <= len
    ensures var (t, _) := Take(Bytes(noise + Delimited(SentFrame(body))), false, [], EncodedBufferSize(len));
            t.Segment? && Unpack(Unescape(t.bytes, peek)) == Body(body)
            <==> 4 <= |Encoded(body)| && |Escape(body)| <= 255 && |body| <= 253
  {
    hide Harmless, Encoded, SentFrame, Unescape, Unpack, Escape, Take;
    var line := Bytes(noise + Delimited(SentFrame(body)));
    assert line + [] == line;
    SentHasNoEnd(body);
    SentIsShort(body);
    TakeFrame(noise, SentFrame(body), [], EncodedBufferSize(len));
    TakeNothing(true, [], EncodedBufferSize(len));
    SentIsEncodedIff(body);
    ComesBackIff(body, peek);
  }

  lemma TakeNothing(started: bool, acc: seq<byte>, capacity: nat)
    ensures Take([], started, acc, capacity) == (TimedOut, [])
  {}

  lemma SentIsShort(body: seq<byte>)
    ensures |SentFrame(body)| <= 2 * |body| + 4
  {
    hide Escape, Crc, Octet;
    EscapeSize(body);
    EscapeSize(CrcBytes(body));
  }

  lemma SentHasNoEnd(body: seq<byte>)
    ensures END_SLIP_OCTET !in SentFrame(body)
  {
    hide Escape, Crc;
    EscapeHasNoEnd(body);
    EscapeHasNoEnd(CrcBytes(body));
  }

  /** The empty body is encoded and decoded, but does not come back. */
  lemma EmptyBodyIsLost(capacity: nat, peek: byte)
    requires 4 <= capacity
    ensures Encoded([]) == [0xFF, 0xFF] && Unpack(Unescape(SentFrame([]), peek)) == Body([])
    ensures Take(Bytes(Wire([])), false, [], capacity).0 == TimedOut
  {
    hide Encoded, SentFrame, Unescape, Unpack, Take, Bytes, Delimited;
    var line := Bytes(Wire([]));
    EncodedNothing();
    EscapeOne(0);
    ComesBackIff([], peek);
    assert [] + Wire([]) == Wire([]) && line + [] == line;
    assert Harmless([], false, 0);
    TakeFrame([], Encoded([]), [], capacity);
    TakeNothing(true, [], capacity);
  }

  // --------------------------------------------------------- whole streams

  /** Noise and then a frame. */
  datatype Item = Item(noise: seq<byte>, body: seq<byte>)

  function Stream(items: seq<Item>): seq<byte> {
    if items == [] then [] else items[0].noise + Wire(items[0].body) + Stream(items[1..])
  }

  /** Noise that is no frame, and a frame that can be sent and is neither too short
      for a frame nor too long for the receiving buffer. */
  ghost predicate Sendable(item: Item, capacity: nat) {
    && Harmless(item.noise, false, 0)
    && 4 <= |Encoded(item.body)| <= capacity && |Escape(item.body)| <= 255
  }

  /** ... and that the receiver can count in 8 bits. */
  ghost predicate Receivable(item: Item, capacity: nat) {
    Sendable(item, capacity) && |item.body| <= 253
  }

  /** What `n` calls of Slip_get_buffer take, one after the other. */
  function Calls(rx: seq<ReadEvent>, n: nat, capacity: nat): (r: (seq<Taken>, seq<ReadEvent>))
    decreases n
  {
    if n == 0 then ([], rx)
    else
      var (t, rest) := Take(rx, false, [], capacity);
      var (ts, rest') := Calls(rest, n - 1, capacity);
      ([t] + ts, rest')
  }

  lemma {:induction false} CallsTakeEachFrame(items: seq<Item>, capacity: nat)
    requires forall i :: 0 <= i < |items| ==> Sendable(items[i], capacity)
    ensures var (ts, rest) := Calls(Bytes(Stream(items)), |items|, capacity);
            && rest == [] && |ts| == |items|
            && forall i :: 0 <= i < |items| ==> ts[i] == Segment(Encoded(items[i].body))
  {
    hide Take, Encoded, Wire, Harmless, Bytes, Sendable;
    if items == [] {
      assert Bytes([]) == [] by { NoBytes(); }
    } else {
      var first, tail := items[0], items[1..];
      assert Sendable(items[0], capacity);
      CallsTakeEachFrame(tail, capacity);
      BytesConcat(first.noise + Wire(first.body), Stream(tail));
      SendableIsTaken(first, Bytes(Stream(tail)), capacity);
      var ts := Calls(Bytes(Stream(items)), |items|, capacity).0;
      assert ts[1..] == Calls(Bytes(Stream(tail)), |tail|, capacity).0;
      forall i | 0 < i < |items| ensures ts[i] == Segment(Encoded(items[i].body)) {
        assert ts[i] == ts[1..][i - 1] && items[i] == tail[i - 1];
      }
    }
  }

  lemma NoBytes()
    ensures Bytes([]) == []
  {}

  lemma SendableIsTaken(item: Item, rest: seq<ReadEvent>, capacity: nat)
    requires Sendable(item, capacity)
    ensures Take(Bytes(item.noise + Wire(item.body)) + rest, false, [], capacity)
            == (Segment(Encoded(item.body)), rest)
  {
    hide Take, Encoded, Wire, Harmless, Bytes;
    TakeFindsFrame(item.noise, item.body, rest, capacity);
  }

  /** Repeated calls over a stream of frames with noise before any of them take
      one frame per call and leave nothing behind; a call returns exactly the body
      that was sent if and only if that body has at most 253 bytes. */
  lemma FramesComeBack(items: seq<Item>, capacity: nat, i: nat, peek: byte)
    requires forall j :: 0 <= j < |items| ==> Sendable(items[j], capacity)
    requires i < |items|
    ensures var (ts, rest) := Calls(Bytes(Stream(items)), |items|, capacity);
            && rest == [] && |ts| == |items|
            && ts[i].Segment?
            && (Unpack(Unescape(ts[i].bytes, peek)) == Body(items[i].body) <==> Receivable(items[i], capacity))
  {
    hide Take, Calls, Harmless, Unescape, Unpack, Encoded, Sendable;
    CallsTakeEachFrame(items, capacity);
    assert Sendable(items[i], capacity);
    ComesBackIffCounted(items[i].body, peek);
  }

  // ------------------------------------------------ sending and receiving

  function Bodies(items: seq<Item>): (bodies: seq<seq<byte>>)
    ensures |bodies| == |items| && forall i :: 0 <= i < |items| ==> bodies[i] == items[i].body
  {
    seq(|items|, i requires 0 <= i < |items| => items[i].body)
  }

  lemma {:induction false} StreamOneMore(items: seq<Item>, i: nat)
    requires i < |items|
    ensures Stream(items[..i + 1]) == Stream(items[..i]) + (items[i].noise + Wire(items[i].body))
    decreases i
  {
    hide Wire;
    var upto := items[..i + 1];
    if i == 0 {
      assert upto == [items[0]] && upto[1..] == [] && items[..0] == [];
    } else {
      assert upto[1..] == items[1..][..i] && items[..i][1..] == items[1..][..i - 1];
      StreamOneMore(items[1..], i - 1);
    }
  }

  /** The frames of all bodies, each sent with Slip_send_buffer, as they come over
      a line that adds the noise. */
  method SendAll(items: seq<Item>) returns (line: seq<byte>)
    requires forall i :: 0 <= i < |items| ==>
               |Escape(items[i].body)| <= 255 && |Encoded(items[i].body)| <= 2 * |items[i].body| + 2
    ensures line == Stream(items)
  {
    hide Escape, Encoded, Wire, Stream, Delimited, SentFrame;
    line := [];
    assert items[..0] == [] && Stream([]) == [] by { StreamOfNothing(); }
    var i := 0;
    while i < |items|
      invariant i <= |items| && line == Stream(items[..i])
    {
      var body := items[i].body;
      var buffer := new byte[|body|](k requires 0 <= k < |body| => body[k]);
      assert buffer[..|body|] == body;
      var port := new SerialPort([]);
      SentIsEncodedIff(body);
      var res := SlipSendBuffer(buffer, |body|, port, true);
      assert port.tx == Wire(body);
      StreamOneMore(items, i);
      line := line + (items[i].noise + port.tx);
      i := i + 1;
    }
    assert items[..i] == items;
  }

  lemma StreamOfNothing()
    ensures Stream([]) == [] && Bytes([]) == []
  {}

  /** What one call of Slip_get_buffer finds in a stream. */
  lemma FirstOfStream(items: seq<Item>, capacity: nat, peek: byte)
    requires items != [] && Receivable(items[0], capacity)
    ensures Take(Bytes(Stream(items)), false, [], capacity)
            == (Segment(Encoded(items[0].body)), Bytes(Stream(items[1..])))
    ensures Unpack(Unescape(Encoded(items[0].body), peek)) == Body(items[0].body)
  {
    hide Take, Encoded, Wire, Harmless, Unpack, Unescape;
    var first := items[0];
    BytesConcat(first.noise + Wire(first.body), Stream(items[1..]));
    TakeFindsFrame(first.noise, first.body, Bytes(Stream(items[1..])), capacity);
    ComesBackIffCounted(first.body, peek);
  }

  /** Every body, sent with Slip_send_buffer and received with Slip_get_buffer into
      a buffer of `len` bytes, comes back; one call for each, nothing left. */
  method SendAndReceive(items: seq<Item>, len: nat) returns (got: seq<seq<byte>>)
    requires forall i :: 0 <= i < |items| ==>
               && Receivable(items[i], EncodedBufferSize(len)) && |items[i].body| <= len
               && |Encoded(items[i].body)| <= 2 * |items[i].body| + 2
    ensures got == Bodies(items)
  {
    hide Escape, Encoded, Stream, Take, Unescape, Unpack, Harmless, Bytes;
    var line := SendAll(items);
    var port := new SerialPort(Bytes(line));
    var buffer := new byte[len];
    got := [];
    assert items[0..] == items;
    var i := 0;
    while i < |items|
      invariant i <= |items| && port.rx == Bytes(Stream(items[i..]))
      invariant got == Bodies(items)[..i]
    {
      assert items[i..][1..] == items[i + 1..] && items[i..][0] == items[i];
      var res, peek := SlipGetBuffer(port, buffer, len);
      FirstOfStream(items[i..], EncodedBufferSize(len), peek);
      got := got + [buffer[..res]];
      i := i + 1;
    }
  }

  /** One call of Slip_get_buffer for a frame on the line, with any CRC field and
      anything behind it: what comes of it and what is left on the line. */
  method ReceiveFrame(noise: seq<byte>, body: seq<byte>, lo: byte, hi: byte, rest: seq<ReadEvent>, len: nat)
    returns (res: int, got: seq<byte>, left: seq<ReadEvent>)
    requires Harmless(noise, false, 0) && 4 <= |Escape(body + [lo, hi])|
    requires |body| <= 253 && |body| <= len
    ensures left == rest
    ensures res == WRONG_CRC_FROM_HOST <==> lo == 0xFF && hi == 0xFF && Crc(body) != 0xFFFF
    ensures res == WRONG_CRC <==> !IsCrcOf(lo, hi, body) && !(lo == 0xFF && hi == 0xFF)
    ensures res >= 0 <==> IsCrcOf(lo, hi, body)
    ensures res >= 0 ==> res == |body| && got == body
  {
    hide Take, Unescape, Unpack, Escape, Crc, Octet, Harmless, Bytes, Delimited;
    ghost var u, frame := body + [lo, hi], Escape(body + [lo, hi]);
    EscapeSize(u);
    EscapeHasNoEnd(u);
    TakeFrame(noise, frame, rest, EncodedBufferSize(len));
    var port := new SerialPort(Bytes(noise + Delimited(Escape(body + [lo, hi]))) + rest);
    var buffer := new byte[len];
    ghost var peek;
    res, peek := SlipGetBuffer(port, buffer, len);
    UnescapeEscape(u, peek);
    assert u[..|u| - 2] == body;
    left := port.rx;
    got := if 0 <= res <= len then buffer[..res] else [];
  }

  /** A known answer on the line. */
  lemma KnownWire()
    ensures Wire([0xDB, 0xC0, 0xC0, 0xC0]) == [0xC0, 0xC0, 0xC0, 0xDB, 0xDD, 0xDB, 0xDC, 0xDB, 0xDC, 0xDB, 0xDC,
                                               0x33, 0xDB, 0xDD, 0xC0]
  {
    hide Encoded;
    KnownFrame();
  }

  /** A segment longer than the receiving buffer is given up at the first byte that
      does not fit. */
  lemma {:induction false} TakeTooLong(s: seq<byte>, acc: seq<byte>, rest: seq<ReadEvent>, capacity: nat)
    requires END_SLIP_OCTET !in s && |acc| <= capacity < |acc| + |s|
    ensures Take(Bytes(s) + rest, true, acc, capacity) == (TooLong, Bytes(s[capacity + 1 - |acc|..]) + rest)
    decreases |s|
  {
    var rx := Bytes(s) + rest;
    assert rx[0] == Byte(s[0]) && rx[1..] == Bytes(s[1..]) + rest;
    if |acc| < capacity {
      TakeTooLong(s[1..], acc + [s[0]], rest, capacity);
      assert s[1..][capacity - |acc|..] == s[capacity + 1 - |acc|..];
    }
  }

  /** Failed reads in between change nothing. */
  function Clean(rx: seq<ReadEvent>): seq<ReadEvent> {
    if rx == [] then [] else if rx[0] == ReadError then Clean(rx[1..]) else [rx[0]] + Clean(rx[1..])
  }

  lemma {:induction false} ReadErrorsAreIgnored(rx: seq<ReadEvent>, started: bool, acc: seq<byte>, capacity: nat)
    ensures Take(rx, started, acc, capacity).0 == Take(Clean(rx), started, acc, capacity).0
    ensures Clean(Take(rx, started, acc, capacity).1) == Take(Clean(rx), started, acc, capacity).1
    decreases |rx|
  {
    if rx != [] {
      var rest := rx[1..];
      if rx[0] != ReadError {
        assert Clean(rx)[1..] == Clean(rest);
      }
      ReadErrorsAreIgnored(rest, started, acc, capacity);
      ReadErrorsAreIgnored(rest, true, [], capacity);
      if rx[0].Byte? {
        ReadErrorsAreIgnored(rest, true, acc + [rx[0].b], capacity);
        ReadErrorsAreIgnored(rest, true, acc, capacity);
      }
    }
  }
}
