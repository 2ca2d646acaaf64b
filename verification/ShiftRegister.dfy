/** The CRC of the serial frames by definition: a shift register fed bit by bit,
    and the errors it is certain to detect. */
module ShiftRegister {
  import opened Common

  // ------------------------------------------------- register arithmetic

  function Xor(a: bv16, b: bv16): bv16 { a ^ b }

  function Shl(a: bv16): bv16 { a << 1 }

  function Shr(a: bv16): bv16 { a >> 1 }

  predicate Top(a: bv16) { a & 0x8000 != 0 }

  predicate Even(a: bv16) { a & 0x0001 == 0 }

  lemma XorShl(a: bv16, b: bv16)
    ensures Shl(Xor(a, b)) == Xor(Shl(a), Shl(b))
  {}

  lemma XorShr(a: bv16, b: bv16)
    ensures Shr(Xor(a, b)) == Xor(Shr(a), Shr(b))
  {}

  lemma XorTop(a: bv16, b: bv16)
    ensures Top(Xor(a, b)) == (Top(a) != Top(b))
  {}

  lemma XorEven(a: bv16, b: bv16)
    requires Even(a) && Even(b)
    ensures Even(Xor(a, b))
  {}

  lemma XorAssociates(a: bv16, b: bv16, c: bv16)
    ensures Xor(Xor(a, b), c) == Xor(Xor(a, c), b) == Xor(a, Xor(b, c))
  {}

  lemma XorCancels(a: bv16, b: bv16)
    ensures Xor(Xor(a, b), b) == a
    ensures Xor(Xor(b, a), b) == a
    ensures Xor(a, 0) == a && Xor(0, a) == a
  {}

  lemma ShrEven(a: bv16)
    ensures !Top(Shr(a))
    ensures Even(a) ==> Shl(Shr(a)) == a
  {}

  lemma ShlAndTop(a: bv16, b: bv16)
    requires Top(a) == Top(b) && Shl(a) == Shl(b)
    ensures a == b
  {}

  // ---------------------------------------------------- the shift register

  /** x^16 + x^12 + x^5 + 1, without its leading term. */
  const POLYNOMIAL: bv16 := 0x1021
  const INITIAL: bv16 := 0xffff

  /** Shifting one message bit, most significant first, into the register. */
  function ShiftIn(reg: bv16, bit: bool): bv16 {
    if Top(reg) != bit then Xor(Shl(reg), POLYNOMIAL) else Shl(reg)
  }

  /** The register after a message given bit by bit. */
  function Register(reg: bv16, bits: seq<bool>): bv16
    decreases |bits|
  {
    if bits == [] then reg else Register(ShiftIn(reg, bits[0]), bits[1..])
  }

  /** The bits of a byte, most significant first. */
  function Bits(b: byte): (r: seq<bool>)
    ensures |r| == 8
  {
    [b & 0x80 != 0, b & 0x40 != 0, b & 0x20 != 0, b & 0x10 != 0,
     b & 0x08 != 0, b & 0x04 != 0, b & 0x02 != 0, b & 0x01 != 0]
  }

  function AllBits(s: seq<byte>): (r: seq<bool>)
    ensures |r| == 8 * |s|
  {
    if s == [] then [] else Bits(s[0]) + AllBits(s[1..])
  }

  /** The CRC, by definition: the register after all bits of the message. */
  function Crc(s: seq<byte>): bv16 {
    Register(INITIAL, AllBits(s))
  }

  lemma {:induction false} RegisterConcat(reg: bv16, a: seq<bool>, b: seq<bool>)
    ensures Register(reg, a + b) == Register(Register(reg, a), b)
    decreases |a|
  {
    hide ShiftIn;
    if a == [] {
      assert a + b == b;
    } else {
      assert (a + b)[1..] == a[1..] + b && (a + b)[0] == a[0];
      RegisterConcat(ShiftIn(reg, a[0]), a[1..], b);
    }
  }

  lemma {:induction false} AllBitsConcat(a: seq<byte>, b: seq<byte>)
    ensures AllBits(a + b) == AllBits(a) + AllBits(b)
  {
    hide Bits;
    if a == [] {
      assert a + b == b;
    } else {
      assert (a + b)[1..] == a[1..] + b && (a + b)[0] == a[0];
      AllBitsConcat(a[1..], b);
    }
  }

  // ------------------------------------------------- the register is linear

  /** Shifting a zero bit in. */
  function Shift(reg: bv16): bv16 {
    if Top(reg) then Xor(Shl(reg), POLYNOMIAL) else Shl(reg)
  }

  function ShiftN(reg: bv16, n: nat): bv16
    decreases n
  {
    if n == 0 then reg else ShiftN(Shift(reg), n - 1)
  }

  lemma ShiftIsLinear(a: bv16, b: bv16)
    ensures Shift(Xor(a, b)) == Xor(Shift(a), Shift(b))
  {
    hide Xor, Shl, Top, POLYNOMIAL;
    var p := POLYNOMIAL;
    XorTop(a, b);
    XorShl(a, b);
    XorAssociates(Shl(a), p, Shl(b));
    XorAssociates(Shl(a), Shl(b), p);
    XorAssociates(Shl(a), p, Xor(Shl(b), p));
    XorAssociates(p, Shl(b), p);
    XorCancels(Shl(b), p);
  }

  lemma {:induction false} ShiftNIsLinear(a: bv16, b: bv16, n: nat)
    ensures ShiftN(Xor(a, b), n) == Xor(ShiftN(a, n), ShiftN(b, n))
    decreases n
  {
    hide Xor, Shift;
    if n > 0 {
      ShiftIsLinear(a, b);
      ShiftNIsLinear(Shift(a), Shift(b), n - 1);
    }
  }

  lemma PolynomialIsOdd(a: bv16, b: bv16)
    ensures Xor(Shl(a), POLYNOMIAL) != Shl(b)
  {}

  lemma ShiftIsInjective(a: bv16, b: bv16)
    requires Shift(a) == Shift(b)
    ensures a == b
  {
    hide Xor, Shl, Top, POLYNOMIAL;
    PolynomialIsOdd(a, b);
    PolynomialIsOdd(b, a);
    XorCancels(Shl(a), POLYNOMIAL);
    XorCancels(Shl(b), POLYNOMIAL);
    if Top(a) == Top(b) { ShlAndTop(a, b); }
  }

  lemma {:induction false} ShiftNIsInjective(a: bv16, b: bv16, n: nat)
    requires ShiftN(a, n) == ShiftN(b, n)
    ensures a == b
    decreases n
  {
    hide Shift;
    if n > 0 {
      ShiftNIsInjective(Shift(a), Shift(b), n - 1);
      ShiftIsInjective(a, b);
    }
  }

  lemma ShiftInIsShift(reg: bv16, bit: bool)
    ensures ShiftIn(reg, bit) == Xor(Shift(reg), if bit then POLYNOMIAL else 0)
  {
    hide Xor, Shl, Top, POLYNOMIAL;
    XorCancels(Shl(reg), POLYNOMIAL);
    XorCancels(Xor(Shl(reg), POLYNOMIAL), 0);
    XorCancels(Shl(reg), 0);
  }

  // ------------------------------- up to 16 message bits, packed in a word

  const TOP_BIT: bv16 := 0x8000

  /** Message bits as the top bits of a word. */
  function Pack(w: seq<bool>): bv16 {
    if w == [] then 0 else Xor(if w[0] then TOP_BIT else 0, Shr(Pack(w[1..])))
  }

  /** The low `n` bits are zero. */
  ghost predicate LowZero(x: bv16, n: nat) {
    n == 0 || (Even(x) && LowZero(Shr(x), n - 1))
  }

  lemma {:induction false} ZeroIsLowZero(n: nat)
    ensures LowZero(0, n)
  {
    if n > 0 { ZeroIsLowZero(n - 1); }
  }

  lemma TopBitIsLowZero(n: nat)
    requires n <= 15
    ensures LowZero(TOP_BIT, n)
  {
    hide LowZero;
    LowZeroDown(0x0001, 0x0002, n - 15); LowZeroDown(0x0002, 0x0004, n - 14); LowZeroDown(0x0004, 0x0008, n - 13);
    LowZeroDown(0x0008, 0x0010, n - 12); LowZeroDown(0x0010, 0x0020, n - 11); LowZeroDown(0x0020, 0x0040, n - 10);
    LowZeroDown(0x0040, 0x0080, n - 9); LowZeroDown(0x0080, 0x0100, n - 8); LowZeroDown(0x0100, 0x0200, n - 7);
    LowZeroDown(0x0200, 0x0400, n - 6); LowZeroDown(0x0400, 0x0800, n - 5); LowZeroDown(0x0800, 0x1000, n - 4);
    LowZeroDown(0x1000, 0x2000, n - 3); LowZeroDown(0x2000, 0x4000, n - 2); LowZeroDown(0x4000, 0x8000, n - 1);
    NothingBelow(TOP_BIT);
  }

  lemma NothingBelow(x: bv16)
    ensures LowZero(x, 0)
  {}

  lemma LowZeroDown(x: bv16, y: bv16, n: int)
    requires Even(y) && Shr(y) == x
    requires n <= 0 || LowZero(x, n)
    ensures n + 1 <= 0 || LowZero(y, n + 1)
  {}

  lemma {:induction false} XorLowZero(a: bv16, b: bv16, n: nat)
    requires LowZero(a, n) && LowZero(b, n)
    ensures LowZero(Xor(a, b), n)
    decreases n
  {
    hide Xor, Shr, Even;
    if n > 0 {
      XorEven(a, b);
      XorShr(a, b);
      XorLowZero(Shr(a), Shr(b), n - 1);
    }
  }

  lemma {:induction false} PackIsLowZero(w: seq<bool>)
    requires |w| <= 16
    ensures LowZero(Pack(w), 16 - |w|)
  {
    hide Xor, Shr, Even, TOP_BIT;
    if w == [] {
      ZeroIsLowZero(16);
    } else {
      PackIsLowZero(w[1..]);
      ZeroIsLowZero(16 - |w|);
      TopBitIsLowZero(16 - |w|);
      XorLowZero(if w[0] then TOP_BIT else 0, Shr(Pack(w[1..])), 16 - |w|);
    }
  }

  lemma TopBit()
    ensures Top(TOP_BIT) && !Top(0) && Shift(TOP_BIT) == POLYNOMIAL && Shift(0) == 0
  {}

  /** Shifting a packed word drops its first bit and feeds it back. */
  lemma ShiftPack(w: seq<bool>)
    requires 0 < |w| <= 16
    ensures Shift(Pack(w)) == Xor(if w[0] then POLYNOMIAL else 0, Pack(w[1..]))
    ensures Top(Pack(w)) == w[0]
  {
    hide Xor, Shl, Shr, Top, Even, TOP_BIT, POLYNOMIAL;
    var rest := Pack(w[1..]);
    PackIsLowZero(w[1..]);
    ShrEven(rest);
    var first := if w[0] then TOP_BIT else 0;
    TopBit();
    XorTop(first, Shr(rest));
    ShiftIsLinear(first, Shr(rest));
  }

  /** Feeding up to 16 bits into the register is the same as adding them to its
      top and shifting zeros in. */
  lemma {:induction false} RegisterIsShift(reg: bv16, w: seq<bool>)
    requires |w| <= 16
    ensures Register(reg, w) == ShiftN(Xor(reg, Pack(w)), |w|)
    decreases |w|
  {
    hide Xor, Shift, ShiftIn, Top;
    if w == [] {
      XorCancels(reg, 0);
    } else {
      var rest := w[1..];
      var feedback := if w[0] then POLYNOMIAL else 0;
      RegisterIsShift(ShiftIn(reg, w[0]), rest);
      ShiftInIsShift(reg, w[0]);
      ShiftPack(w);
      ShiftIsLinear(reg, Pack(w));
      XorAssociates(Shift(reg), feedback, Pack(rest));
    }
  }

  lemma {:induction false} PackIsInjective(v: seq<bool>, w: seq<bool>)
    requires |v| == |w| <= 16 && Pack(v) == Pack(w)
    ensures v == w
  {
    hide Xor, Shl, Shr, Top, Even, TOP_BIT;
    if v != [] {
      ShiftPack(v);
      ShiftPack(w);
      var first := if v[0] then TOP_BIT else 0;
      var p, q := Pack(v[1..]), Pack(w[1..]);
      XorCancels(Shr(p), first);
      XorCancels(Shr(q), first);
      PackIsLowZero(v[1..]);
      PackIsLowZero(w[1..]);
      ShrEven(p);
      ShrEven(q);
      PackIsInjective(v[1..], w[1..]);
      assert v == [v[0]] + v[1..] && w == [w[0]] + w[1..];
    }
  }

  // ---------------------------------------------------- what is detected

  lemma {:induction false} RegisterIsInjective(a: bv16, b: bv16, bits: seq<bool>)
    requires Register(a, bits) == Register(b, bits)
    ensures a == b
    decreases |bits|
  {
    hide Xor, Shift, ShiftIn;
    if bits != [] {
      RegisterIsInjective(ShiftIn(a, bits[0]), ShiftIn(b, bits[0]), bits[1..]);
      var feedback := if bits[0] then POLYNOMIAL else 0;
      ShiftInIsShift(a, bits[0]);
      ShiftInIsShift(b, bits[0]);
      XorCancels(Shift(a), feedback);
      XorCancels(Shift(b), feedback);
      ShiftIsInjective(a, b);
    }
  }

  /** Any two messages that differ only in a window of at most 16 consecutive
      bits leave the register different, wherever the window lies and whatever
      surrounds it. */
  lemma BurstChangesRegister(reg: bv16, before: seq<bool>, v: seq<bool>, w: seq<bool>, after: seq<bool>)
    requires |v| == |w| <= 16 && v != w
    ensures Register(reg, before + v + after) != Register(reg, before + w + after)
  {
    hide Register, ShiftN, Xor, Pack;
    var r := Register(reg, before);
    RegisterConcat(reg, before + v, after);
    RegisterConcat(reg, before, v);
    RegisterConcat(reg, before + w, after);
    RegisterConcat(reg, before, w);
    RegisterIsShift(r, v);
    RegisterIsShift(r, w);
    if Register(reg, before + v + after) == Register(reg, before + w + after) {
      RegisterIsInjective(Register(r, v), Register(r, w), after);
      ShiftNIsInjective(Xor(r, Pack(v)), Xor(r, Pack(w)), |v|);
      XorCancels(Pack(v), r);
      XorCancels(Pack(w), r);
      PackIsInjective(v, w);
    }
  }

  lemma CutInThree(x: seq<bool>, p: nat, e: nat)
    requires p <= e <= |x|
    ensures x == x[..p] + x[p..e] + x[e..]
  {}

  lemma BurstInBits(x: seq<bool>, y: seq<bool>, p: nat)
    requires |x| == |y| && x != y && p <= |x|
    requires forall q :: 0 <= q < |x| && (q < p || p + 16 <= q) ==> x[q] == y[q]
    ensures Register(INITIAL, x) != Register(INITIAL, y)
  {
    hide Register;
    var e := if p + 16 <= |x| then p + 16 else |x|;
    CutInThree(x, p, e);
    CutInThree(y, p, e);
    assert x[..p] == y[..p] && x[e..] == y[e..];
    BurstChangesRegister(INITIAL, x[..p], x[p..e], y[p..e], x[e..]);
  }

  /** A burst of errors no longer than 16 bits, at any bit position `p`, changes the CRC. */
  lemma BurstChangesCrc(a: seq<byte>, b: seq<byte>, p: nat)
    requires |a| == |b| && a != b && p <= 8 * |a|
    requires forall q :: 0 <= q < 8 * |a| && (q < p || p + 16 <= q) ==> AllBits(a)[q] == AllBits(b)[q]
    ensures Crc(a) != Crc(b)
  {
    hide Register, AllBits;
    if AllBits(a) == AllBits(b) { AllBitsIsInjective(a, b); }
    BurstInBits(AllBits(a), AllBits(b), p);
  }

  lemma BitsIsInjective(b: byte, c: byte)
    requires Bits(b) == Bits(c)
    ensures b == c
  {
    var s, t := Bits(b), Bits(c);
    assert s[0] == t[0] && s[1] == t[1] && s[2] == t[2] && s[3] == t[3];
    assert s[4] == t[4] && s[5] == t[5] && s[6] == t[6] && s[7] == t[7];
  }

  lemma {:induction false} AllBitsIsInjective(a: seq<byte>, b: seq<byte>)
    requires |a| == |b| && AllBits(a) == AllBits(b)
    ensures a == b
  {
    hide Bits;
    if a != [] {
      assert Bits(a[0]) == AllBits(a)[..8] == AllBits(b)[..8] == Bits(b[0]);
      assert AllBits(a[1..]) == AllBits(a)[8..] == AllBits(b)[8..] == AllBits(b[1..]);
      BitsIsInjective(a[0], b[0]);
      AllBitsIsInjective(a[1..], b[1..]);
    }
  }

  /** In particular, messages of equal length that differ only inside two
      adjacent bytes have different CRCs. */
  lemma TwoByteErrorChangesCrc(a: seq<byte>, b: seq<byte>, i: nat)
    requires |a| == |b| && a != b && i + 2 <= |a|
    requires a[..i] == b[..i] && a[i + 2..] == b[i + 2..]
    ensures Crc(a) != Crc(b)
  {
    hide Register, AllBits;
    var before, after := a[..i], a[i + 2..];
    assert a == before + a[i..i + 2] + after && b == before + b[i..i + 2] + after;
    AllBitsConcat(before + a[i..i + 2], after);
    AllBitsConcat(before, a[i..i + 2]);
    AllBitsConcat(before + b[i..i + 2], after);
    AllBitsConcat(before, b[i..i + 2]);
    var v, w := AllBits(a[i..i + 2]), AllBits(b[i..i + 2]);
    if v == w { AllBitsIsInjective(a[i..i + 2], b[i..i + 2]); }
    BurstChangesRegister(INITIAL, AllBits(before), v, w, AllBits(after));
  }
}
