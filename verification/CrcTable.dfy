/** The CRC as it is computed: a byte at a time, through a table of 256 entries. */
module CrcTable {
  import opened Common
  import opened ShiftRegister

  function Row(low: byte,
               v0: bv16, v1: bv16, v2: bv16, v3: bv16, v4: bv16, v5: bv16, v6: bv16, v7: bv16,
               v8: bv16, v9: bv16, vA: bv16, vB: bv16, vC: bv16, vD: bv16, vE: bv16, vF: bv16): bv16
  {
    match low
    case 0 => v0 case 1 => v1 case 2 => v2 case 3 => v3
    case 4 => v4 case 5 => v5 case 6 => v6 case 7 => v7
    case 8 => v8 case 9 => v9 case 10 => vA case 11 => vB
    case 12 => vC case 13 => vD case 14 => vE case _ => vF
  }

  /** The 256 entries of the table, sixteen to a row. */
  function CrcCcittLut(index: byte): bv16 {
    var low := index & 0x0f;
    match index & 0xf0
    case 0x00 => Row(low,
      0x0000, 0x1021, 0x2042, 0x3063, 0x4084, 0x50a5, 0x60c6, 0x70e7,
      0x8108, 0x9129, 0xa14a, 0xb16b, 0xc18c, 0xd1ad, 0xe1ce, 0xf1ef)
    case 0x10 => Row(low,
      0x1231, 0x0210, 0x3273, 0x2252, 0x52b5, 0x4294, 0x72f7, 0x62d6,
      0x9339, 0x8318, 0xb37b, 0xa35a, 0xd3bd, 0xc39c, 0xf3ff, 0xe3de)
    case 0x20 => Row(low,
      0x2462, 0x3443, 0x0420, 0x1401, 0x64e6, 0x74c7, 0x44a4, 0x5485,
      0xa56a, 0xb54b, 0x8528, 0x9509, 0xe5ee, 0xf5cf, 0xc5ac, 0xd58d)
    case 0x30 => Row(low,
      0x3653, 0x2672, 0x1611, 0x0630, 0x76d7, 0x66f6, 0x5695, 0x46b4,
      0xb75b, 0xa77a, 0x9719, 0x8738, 0xf7df, 0xe7fe, 0xd79d, 0xc7bc)
    case 0x40 => Row(low,
      0x48c4, 0x58e5, 0x6886, 0x78a7, 0x0840, 0x1861, 0x2802, 0x3823,
      0xc9cc, 0xd9ed, 0xe98e, 0xf9af, 0x8948, 0x9969, 0xa90a, 0xb92b)
    case 0x50 => Row(low,
      0x5af5, 0x4ad4, 0x7ab7, 0x6a96, 0x1a71, 0x0a50, 0x3a33, 0x2a12,
      0xdbfd, 0xcbdc, 0xfbbf, 0xeb9e, 0x9b79, 0x8b58, 0xbb3b, 0xab1a)
    case 0x60 => Row(low,
      0x6ca6, 0x7c87, 0x4ce4, 0x5cc5, 0x2c22, 0x3c03, 0x0c60, 0x1c41,
      0xedae, 0xfd8f, 0xcdec, 0xddcd, 0xad2a, 0xbd0b, 0x8d68, 0x9d49)
    case 0x70 => Row(low,
      0x7e97, 0x6eb6, 0x5ed5, 0x4ef4, 0x3e13, 0x2e32, 0x1e51, 0x0e70,
      0xff9f, 0xefbe, 0xdfdd, 0xcffc, 0xbf1b, 0xaf3a, 0x9f59, 0x8f78)
    case 0x80 => Row(low,
      0x9188, 0x81a9, 0xb1ca, 0xa1eb, 0xd10c, 0xc12d, 0xf14e, 0xe16f,
      0x1080, 0x00a1, 0x30c2, 0x20e3, 0x5004, 0x4025, 0x7046, 0x6067)
    case 0x90 => Row(low,
      0x83b9, 0x9398, 0xa3fb, 0xb3da, 0xc33d, 0xd31c, 0xe37f, 0xf35e,
      0x02b1, 0x1290, 0x22f3, 0x32d2, 0x4235, 0x5214, 0x6277, 0x7256)
    case 0xA0 => Row(low,
      0xb5ea, 0xa5cb, 0x95a8, 0x8589, 0xf56e, 0xe54f, 0xd52c, 0xc50d,
      0x34e2, 0x24c3, 0x14a0, 0x0481, 0x7466, 0x6447, 0x5424, 0x4405)
    case 0xB0 => Row(low,
      0xa7db, 0xb7fa, 0x8799, 0x97b8, 0xe75f, 0xf77e, 0xc71d, 0xd73c,
      0x26d3, 0x36f2, 0x0691, 0x16b0, 0x6657, 0x7676, 0x4615, 0x5634)
    case 0xC0 => Row(low,
      0xd94c, 0xc96d, 0xf90e, 0xe92f, 0x99c8, 0x89e9, 0xb98a, 0xa9ab,
      0x5844, 0x4865, 0x7806, 0x6827, 0x18c0, 0x08e1, 0x3882, 0x28a3)
    case 0xD0 => Row(low,
      0xcb7d, 0xdb5c, 0xeb3f, 0xfb1e, 0x8bf9, 0x9bd8, 0xabbb, 0xbb9a,
      0x4a75, 0x5a54, 0x6a37, 0x7a16, 0x0af1, 0x1ad0, 0x2ab3, 0x3a92)
    case 0xE0 => Row(low,
      0xfd2e, 0xed0f, 0xdd6c, 0xcd4d, 0xbdaa, 0xad8b, 0x9de8, 0x8dc9,
      0x7c26, 0x6c07, 0x5c64, 0x4c45, 0x3ca2, 0x2c83, 0x1ce0, 0x0cc1)
    case _ => Row(low,
      0xef1f, 0xff3e, 0xcf5d, 0xdf7c, 0xaf9b, 0xbfba, 0x8fd9, 0x9ff8,
      0x6e17, 0x7e36, 0x4e55, 0x5e74, 0x2e93, 0x3eb2, 0x0ed1, 0x1ef0)
  }

  function Shift8(reg: bv16): bv16 {
    Shift(Shift(Shift(Shift(Shift(Shift(Shift(Shift(reg))))))))
  }

  lemma TableRow0(index: byte) requires index & 0xf0 == 0x00 ensures CrcCcittLut(index) == Shift8(HighWord(index)) {}
  lemma TableRow1(index: byte) requires index & 0xf0 == 0x10 ensures CrcCcittLut(index) == Shift8(HighWord(index)) {}
  lemma TableRow2(index: byte) requires index & 0xf0 == 0x20 ensures CrcCcittLut(index) == Shift8(HighWord(index)) {}
  lemma TableRow3(index: byte) requires index & 0xf0 == 0x30 ensures CrcCcittLut(index) == Shift8(HighWord(index)) {}
  lemma TableRow4(index: byte) requires index & 0xf0 == 0x40 ensures CrcCcittLut(index) == Shift8(HighWord(index)) {}
  lemma TableRow5(index: byte) requires index & 0xf0 == 0x50 ensures CrcCcittLut(index) == Shift8(HighWord(index)) {}
  lemma TableRow6(index: byte) requires index & 0xf0 == 0x60 ensures CrcCcittLut(index) == Shift8(HighWord(index)) {}
  lemma TableRow7(index: byte) requires index & 0xf0 == 0x70 ensures CrcCcittLut(index) == Shift8(HighWord(index)) {}
  lemma TableRow8(index: byte) requires index & 0xf0 == 0x80 ensures CrcCcittLut(index) == Shift8(HighWord(index)) {}
  lemma TableRow9(index: byte) requires index & 0xf0 == 0x90 ensures CrcCcittLut(index) == Shift8(HighWord(index)) {}
  lemma TableRowA(index: byte) requires index & 0xf0 == 0xA0 ensures CrcCcittLut(index) == Shift8(HighWord(index)) {}
  lemma TableRowB(index: byte) requires index & 0xf0 == 0xB0 ensures CrcCcittLut(index) == Shift8(HighWord(index)) {}
  lemma TableRowC(index: byte) requires index & 0xf0 == 0xC0 ensures CrcCcittLut(index) == Shift8(HighWord(index)) {}
  lemma TableRowD(index: byte) requires index & 0xf0 == 0xD0 ensures CrcCcittLut(index) == Shift8(HighWord(index)) {}
  lemma TableRowE(index: byte) requires index & 0xf0 == 0xE0 ensures CrcCcittLut(index) == Shift8(HighWord(index)) {}
  lemma TableRowF(index: byte) requires index & 0xf0 == 0xF0 ensures CrcCcittLut(index) == Shift8(HighWord(index)) {}

  /** Every entry of the table is its index, shifted through the register. */
  lemma TableIsShift(index: byte)
    ensures CrcCcittLut(index) == Shift8(HighWord(index))
  {
    hide CrcCcittLut, Shift8;
    HighNibble(index);
    match index & 0xf0
    case 0x00 => TableRow0(index);
    case 0x10 => TableRow1(index);
    case 0x20 => TableRow2(index);
    case 0x30 => TableRow3(index);
    case 0x40 => TableRow4(index);
    case 0x50 => TableRow5(index);
    case 0x60 => TableRow6(index);
    case 0x70 => TableRow7(index);
    case 0x80 => TableRow8(index);
    case 0x90 => TableRow9(index);
    case 0xA0 => TableRowA(index);
    case 0xB0 => TableRowB(index);
    case 0xC0 => TableRowC(index);
    case 0xD0 => TableRowD(index);
    case 0xE0 => TableRowE(index);
    case _ => TableRowF(index);
  }

  lemma HighNibble(b: byte)
    ensures b & 0xf0 in {0x00, 0x10, 0x20, 0x30, 0x40, 0x50, 0x60, 0x70,
                         0x80, 0x90, 0xA0, 0xB0, 0xC0, 0xD0, 0xE0, 0xF0}
  {}

  /** The table index: the message byte added to the high byte of the register. */
  function Index(crc: bv16, b: byte): byte { b ^ HighByte(crc) }

  function HighWord(b: byte): bv16 { (b as bv16) << 8 }

  function LowByte(crc: bv16): bv16 { crc & 0x00ff }

  /** Byte number `i` of a word, counted from the low end. */
  function Octet(crc: bv16, i: nat): byte {
    if i == 0 then LowByte(crc) as bv8 else HighByte(crc)
  }

  function ShlByte(crc: bv16): bv16 { crc << 8 }

  function HighByte(crc: bv16): byte { (crc >> 8) as bv8 }

  lemma WordParts(crc: bv16)
    ensures crc == Xor(HighWord(HighByte(crc)), LowByte(crc))
  {}

  lemma HighWordXor(a: byte, b: byte)
    ensures HighWord(a ^ b) == Xor(HighWord(b), HighWord(a))
  {}

  lemma SplitWord(crc: bv16, b: byte)
    ensures Xor(crc, HighWord(b)) == Xor(HighWord(Index(crc, b)), LowByte(crc))
  {
    hide Xor, HighWord, LowByte, HighByte;
    WordParts(crc);
    HighWordXor(b, HighByte(crc));
    XorAssociates(HighWord(HighByte(crc)), LowByte(crc), HighWord(b));
  }

  lemma LowByteShift(crc: bv16)
    ensures Shift8(LowByte(crc)) == ShlByte(crc)
  {}

  /** The top bit of a word, or nothing. */
  function Lead(bit: bool): bv16 { if bit then TOP_BIT else 0 }

  function Put(bit: bool, rest: bv16): bv16 { Xor(Lead(bit), Shr(rest)) }

  lemma {:induction false} PackStep(w: seq<bool>, k: nat)
    requires k < |w|
    ensures Pack(w[k..]) == Put(w[k], Pack(w[k + 1..]))
  {
    assert w[k..][1..] == w[k + 1..];
  }

  lemma PackFour(w: seq<bool>, k: nat)
    requires k + 4 <= |w|
    ensures Pack(w[k..]) == Put(w[k], Put(w[k + 1], Put(w[k + 2], Put(w[k + 3], Pack(w[k + 4..])))))
  {
    hide Put, Pack;
    PackStep(w, k);
    PackStep(w, k + 1);
    PackStep(w, k + 2);
    PackStep(w, k + 3);
  }

  lemma PackEnds(w: seq<bool>)
    ensures w[0..] == w && Pack(w[|w|..]) == 0
  {}

  lemma BitsWord(b: byte)
    ensures Put(b & 0x80 != 0, Put(b & 0x40 != 0, Put(b & 0x20 != 0, Put(b & 0x10 != 0,
            Put(b & 0x08 != 0, Put(b & 0x04 != 0, Put(b & 0x02 != 0, Put(b & 0x01 != 0, 0)))))))) == HighWord(b)
  {}

  lemma PackBits(b: byte)
    ensures Pack(Bits(b)) == HighWord(b)
  {
    hide Put, Pack;
    var w := Bits(b);
    PackFour(w, 0);
    PackFour(w, 4);
    PackEnds(w);
    BitsWord(b);
  }

  lemma Shift8IsShiftN(reg: bv16)
    ensures ShiftN(reg, 8) == Shift8(reg)
  {
    hide Shift;
    var a := Shift(Shift(Shift(Shift(reg))));
    assert ShiftN(reg, 8) == ShiftN(Shift(Shift(reg)), 6) == ShiftN(a, 4);
    assert ShiftN(a, 4) == ShiftN(Shift(Shift(a)), 2);
  }

  /** One turn of the loop does what eight bits do to the shift register. */
  lemma TableStepIsRegister(crc: bv16, b: byte)
    ensures Xor(CrcCcittLut(Index(crc, b)), ShlByte(crc)) == Register(crc, Bits(b))
  {
    hide Xor, Register, Shift8, ShiftN, Pack, Bits, CrcCcittLut, Index, HighWord, LowByte, ShlByte;
    var index := Index(crc, b);
    RegisterIsShift(crc, Bits(b));
    PackBits(b);
    SplitWord(crc, b);
    ShiftNIsLinear(HighWord(index), LowByte(crc), 8);
    Shift8IsShiftN(HighWord(index));
    Shift8IsShiftN(LowByte(crc));
    TableIsShift(index);
    LowByteShift(crc);
  }

  /** crc_fromBuffer: the table-driven loop computes the CRC of every message. */
  method CrcFromBuffer(buf: array<byte>, len: nat) returns (crc: bv16)
    requires len <= buf.Length
    ensures crc == Crc(buf[..len])
  {
    hide Register, AllBits, CrcCcittLut, Xor, Index, ShlByte, Bits;
    crc := INITIAL;
    var i := 0;
    NoBits();
    while i < len
      invariant i <= len
      invariant crc == Register(INITIAL, AllBits(buf[..i]))
    {
      TableStepIsRegister(crc, buf[i]);
      OneMoreByte(buf[..i], buf[i]);
      assert buf[..i] + [buf[i]] == buf[..i + 1];
      var index := Index(crc, buf[i]);
      crc := Xor(CrcCcittLut(index), ShlByte(crc));
      i := i + 1;
    }
  }

  lemma NoBits()
    ensures Register(INITIAL, AllBits([])) == INITIAL
  {}

  lemma OneMoreByte(s: seq<byte>, b: byte)
    ensures Register(INITIAL, AllBits(s + [b])) == Register(Register(INITIAL, AllBits(s)), Bits(b))
  {
    hide Register, Bits;
    AllBitsConcat(s, [b]);
    assert AllBits([b]) == Bits(b) + [] == Bits(b);
    RegisterConcat(INITIAL, AllBits(s), Bits(b));
  }
}
