/** What the request engine reads of a frame on the line. */
module Replies {
  import opened Common
  import opened ShiftRegister
  import opened RequestEngine
  import opened Slip
  import opened SlipLine

  function Numbers(s: seq<byte>): (r: seq<nat>)
    ensures |r| == |s| && forall i :: 0 <= i < |s| ==> r[i] == s[i] as nat
  {
    seq(|s|, i requires 0 <= i < |s| => s[i] as nat)
  }

  /** A reply on the line with any CRC field.  It is taken for a rejection of the
      request exactly when the field is FF FF and not the reply's CRC, and for the
      reply itself exactly when the field is its CRC; any other damage is passed on
      as an error of the confirm, for which no request is sent again. */
  method ReceiveReply(noise: seq<byte>, reply: seq<byte>, lo: byte, hi: byte, rest: seq<ReadEvent>, len: nat)
    returns (r: Received, left: seq<ReadEvent>)
    requires Harmless(noise, false, 0) && 2 <= |reply| <= 253 && |reply| <= len
    ensures left == rest
    ensures Rejection(r) <==> lo == 0xFF && hi == 0xFF && Crc(reply) != 0xFFFF
    ensures r == Error(WRONG_CRC) <==> !IsCrcOf(lo, hi, reply) && !(lo == 0xFF && hi == 0xFF)
    ensures r.Frame? <==> IsCrcOf(lo, hi, reply)
    ensures r.Frame? ==> r == Frame(reply[0] as nat, reply[1] as nat, Numbers(reply[2..]))
  {
    hide Escape, Crc, IsCrcOf, Harmless;
    EscapeSize(reply + [lo, hi]);
    var res, got;
    res, got, left := ReceiveFrame(noise, reply, lo, hi, rest, len);
    r := if res < 0 then Error(res) else Frame(got[0] as nat, got[1] as nat, Numbers(got[2..]));
  }
}
