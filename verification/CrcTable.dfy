/** The CRC as the programs compute it: a 256-entry table over machine bytes, and the loops
    that fold it.  The Go client (crc.go) and the firmware (crc.c) carry the same table. */
module CrcTable {
  import opened Bytes
  import opened Crc

  /** One round of the bitwise algorithm: shift left, reduce when a one falls out. */
  function Shift(x: bv8): (r: bv8) {
    if x & 0x80 != 0 then (x << 1) ^ 0x93 else x << 1
  }

  function Shifted(x: bv8, n: nat): (r: bv8) {
    if n == 0 then x else Shift(Shifted(x, n - 1))
  }

  function Shifted8(x: bv8): (r: bv8) {
    Shift(Shift(Shift(Shift(Shift(Shift(Shift(Shift(x))))))))
  }

  /** The lookup table, sixteen rows of sixteen. */
  function Lookup(x: bv8): (r: bv8) {
    var low := x & 0x0f;
    match x >> 4
    case 0x0 => Row0(low)
    case 0x1 => Row1(low)
    case 0x2 => Row2(low)
    case 0x3 => Row3(low)
    case 0x4 => Row4(low)
    case 0x5 => Row5(low)
    case 0x6 => Row6(low)
    case 0x7 => Row7(low)
    case 0x8 => Row8(low)
    case 0x9 => Row9(low)
    case 0xa => RowA(low)
    case 0xb => RowB(low)
    case 0xc => RowC(low)
    case 0xd => RowD(low)
    case 0xe => RowE(low)
    case _ => RowF(low)
  }

  function Row0(x: bv8): (r: bv8) {
    match x
    case 0x00 => 0x00 case 0x01 => 0x93 case 0x02 => 0xb5 case 0x03 => 0x26
    case 0x04 => 0xf9 case 0x05 => 0x6a case 0x06 => 0x4c case 0x07 => 0xdf
    case 0x08 => 0x61 case 0x09 => 0xf2 case 0x0a => 0xd4 case 0x0b => 0x47
    case 0x0c => 0x98 case 0x0d => 0x0b case 0x0e => 0x2d case _ => 0xbe
  }

  function Row1(x: bv8): (r: bv8) {
    match x
    case 0x00 => 0xc2 case 0x01 => 0x51 case 0x02 => 0x77 case 0x03 => 0xe4
    case 0x04 => 0x3b case 0x05 => 0xa8 case 0x06 => 0x8e case 0x07 => 0x1d
    case 0x08 => 0xa3 case 0x09 => 0x30 case 0x0a => 0x16 case 0x0b => 0x85
    case 0x0c => 0x5a case 0x0d => 0xc9 case 0x0e => 0xef case _ => 0x7c
  }

  function Row2(x: bv8): (r: bv8) {
    match x
    case 0x00 => 0x17 case 0x01 => 0x84 case 0x02 => 0xa2 case 0x03 => 0x31
    case 0x04 => 0xee case 0x05 => 0x7d case 0x06 => 0x5b case 0x07 => 0xc8
    case 0x08 => 0x76 case 0x09 => 0xe5 case 0x0a => 0xc3 case 0x0b => 0x50
    case 0x0c => 0x8f case 0x0d => 0x1c case 0x0e => 0x3a case _ => 0xa9
  }

  function Row3(x: bv8): (r: bv8) {
    match x
    case 0x00 => 0xd5 case 0x01 => 0x46 case 0x02 => 0x60 case 0x03 => 0xf3
    case 0x04 => 0x2c case 0x05 => 0xbf case 0x06 => 0x99 case 0x07 => 0x0a
    case 0x08 => 0xb4 case 0x09 => 0x27 case 0x0a => 0x01 case 0x0b => 0x92
    case 0x0c => 0x4d case 0x0d => 0xde case 0x0e => 0xf8 case _ => 0x6b
  }

  function Row4(x: bv8): (r: bv8) {
    match x
    case 0x00 => 0x2e case 0x01 => 0xbd case 0x02 => 0x9b case 0x03 => 0x08
    case 0x04 => 0xd7 case 0x05 => 0x44 case 0x06 => 0x62 case 0x07 => 0xf1
    case 0x08 => 0x4f case 0x09 => 0xdc case 0x0a => 0xfa case 0x0b => 0x69
    case 0x0c => 0xb6 case 0x0d => 0x25 case 0x0e => 0x03 case _ => 0x90
  }

  function Row5(x: bv8): (r: bv8) {
    match x
    case 0x00 => 0xec case 0x01 => 0x7f case 0x02 => 0x59 case 0x03 => 0xca
    case 0x04 => 0x15 case 0x05 => 0x86 case 0x06 => 0xa0 case 0x07 => 0x33
    case 0x08 => 0x8d case 0x09 => 0x1e case 0x0a => 0x38 case 0x0b => 0xab
    case 0x0c => 0x74 case 0x0d => 0xe7 case 0x0e => 0xc1 case _ => 0x52
  }

  function Row6(x: bv8): (r: bv8) {
    match x
    case 0x00 => 0x39 case 0x01 => 0xaa case 0x02 => 0x8c case 0x03 => 0x1f
    case 0x04 => 0xc0 case 0x05 => 0x53 case 0x06 => 0x75 case 0x07 => 0xe6
    case 0x08 => 0x58 case 0x09 => 0xcb case 0x0a => 0xed case 0x0b => 0x7e
    case 0x0c => 0xa1 case 0x0d => 0x32 case 0x0e => 0x14 case _ => 0x87
  }

  function Row7(x: bv8): (r: bv8) {
    match x
    case 0x00 => 0xfb case 0x01 => 0x68 case 0x02 => 0x4e case 0x03 => 0xdd
    case 0x04 => 0x02 case 0x05 => 0x91 case 0x06 => 0xb7 case 0x07 => 0x24
    case 0x08 => 0x9a case 0x09 => 0x09 case 0x0a => 0x2f case 0x0b => 0xbc
    case 0x0c => 0x63 case 0x0d => 0xf0 case 0x0e => 0xd6 case _ => 0x45
  }

  function Row8(x: bv8): (r: bv8) {
    match x
    case 0x00 => 0x5c case 0x01 => 0xcf case 0x02 => 0xe9 case 0x03 => 0x7a
    case 0x04 => 0xa5 case 0x05 => 0x36 case 0x06 => 0x10 case 0x07 => 0x83
    case 0x08 => 0x3d case 0x09 => 0xae case 0x0a => 0x88 case 0x0b => 0x1b
    case 0x0c => 0xc4 case 0x0d => 0x57 case 0x0e => 0x71 case _ => 0xe2
  }

  function Row9(x: bv8): (r: bv8) {
    match x
    case 0x00 => 0x9e case 0x01 => 0x0d case 0x02 => 0x2b case 0x03 => 0xb8
    case 0x04 => 0x67 case 0x05 => 0xf4 case 0x06 => 0xd2 case 0x07 => 0x41
    case 0x08 => 0xff case 0x09 => 0x6c case 0x0a => 0x4a case 0x0b => 0xd9
    case 0x0c => 0x06 case 0x0d => 0x95 case 0x0e => 0xb3 case _ => 0x20
  }

  function RowA(x: bv8): (r: bv8) {
    match x
    case 0x00 => 0x4b case 0x01 => 0xd8 case 0x02 => 0xfe case 0x03 => 0x6d
    case 0x04 => 0xb2 case 0x05 => 0x21 case 0x06 => 0x07 case 0x07 => 0x94
    case 0x08 => 0x2a case 0x09 => 0xb9 case 0x0a => 0x9f case 0x0b => 0x0c
    case 0x0c => 0xd3 case 0x0d => 0x40 case 0x0e => 0x66 case _ => 0xf5
  }

  function RowB(x: bv8): (r: bv8) {
    match x
    case 0x00 => 0x89 case 0x01 => 0x1a case 0x02 => 0x3c case 0x03 => 0xaf
    case 0x04 => 0x70 case 0x05 => 0xe3 case 0x06 => 0xc5 case 0x07 => 0x56
    case 0x08 => 0xe8 case 0x09 => 0x7b case 0x0a => 0x5d case 0x0b => 0xce
    case 0x0c => 0x11 case 0x0d => 0x82 case 0x0e => 0xa4 case _ => 0x37
  }

  function RowC(x: bv8): (r: bv8) {
    match x
    case 0x00 => 0x72 case 0x01 => 0xe1 case 0x02 => 0xc7 case 0x03 => 0x54
    case 0x04 => 0x8b case 0x05 => 0x18 case 0x06 => 0x3e case 0x07 => 0xad
    case 0x08 => 0x13 case 0x09 => 0x80 case 0x0a => 0xa6 case 0x0b => 0x35
    case 0x0c => 0xea case 0x0d => 0x79 case 0x0e => 0x5f case _ => 0xcc
  }

  function RowD(x: bv8): (r: bv8) {
    match x
    case 0x00 => 0xb0 case 0x01 => 0x23 case 0x02 => 0x05 case 0x03 => 0x96
    case 0x04 => 0x49 case 0x05 => 0xda case 0x06 => 0xfc case 0x07 => 0x6f
    case 0x08 => 0xd1 case 0x09 => 0x42 case 0x0a => 0x64 case 0x0b => 0xf7
    case 0x0c => 0x28 case 0x0d => 0xbb case 0x0e => 0x9d case _ => 0x0e
  }

  function RowE(x: bv8): (r: bv8) {
    match x
    case 0x00 => 0x65 case 0x01 => 0xf6 case 0x02 => 0xd0 case 0x03 => 0x43
    case 0x04 => 0x9c case 0x05 => 0x0f case 0x06 => 0x29 case 0x07 => 0xba
    case 0x08 => 0x04 case 0x09 => 0x97 case 0x0a => 0xb1 case 0x0b => 0x22
    case 0x0c => 0xfd case 0x0d => 0x6e case 0x0e => 0x48 case _ => 0xdb
  }

  function RowF(x: bv8): (r: bv8) {
    match x
    case 0x00 => 0xa7 case 0x01 => 0x34 case 0x02 => 0x12 case 0x03 => 0x81
    case 0x04 => 0x5e case 0x05 => 0xcd case 0x06 => 0xeb case 0x07 => 0x78
    case 0x08 => 0xc6 case 0x09 => 0x55 case 0x0a => 0x73 case 0x0b => 0xe0
    case 0x0c => 0x3f case 0x0d => 0xac case 0x0e => 0x8a case _ => 0x19
  }

  function Next(crc: bv8, data: bv8): (r: bv8) {
    Lookup(crc ^ data)
  }

  /** The eight digits of a machine byte, most significant first. */
  function Assembled(a: bool, b: bool, c: bool, d: bool, e: bool, f: bool, g: bool, h: bool): (x: bv8) {
    (if a then 0x80 else 0) | (if b then 0x40 else 0) | (if c then 0x20 else 0) | (if d then 0x10 else 0)
    | (if e then 0x08 else 0) | (if f then 0x04 else 0) | (if g then 0x02 else 0) | (if h then 0x01 else 0)
  }

  /** A byte in a machine register. */
  function MachineByte(b: byte): (x: bv8) {
    var s := BitsOf(8, b);
    Assembled(s[0], s[1], s[2], s[3], s[4], s[5], s[6], s[7])
  }

  function Digits(x: bv8): (r: seq<bool>)
    ensures |r| == 8
  {
    seq(8, i requires 0 <= i < 8 => Digit(x, i))
  }

  function Digit(x: bv8, i: nat): (r: bool)
    requires i < 8
  {
    Under(x, Mask(i))
  }

  /** Whether x has any of the bits of a mask. */
  predicate Under(x: bv8, m: bv8) {
    x & m != 0
  }

  predicate IsMask(m: bv8) {
    m == 0x80 || m == 0x40 || m == 0x20 || m == 0x10 || m == 0x08 || m == 0x04 || m == 0x02 || m == 0x01
  }

  function Mask(i: nat): (m: bv8)
    requires i < 8
  {
    match i
    case 0 => 0x80 case 1 => 0x40 case 2 => 0x20 case 3 => 0x10
    case 4 => 0x08 case 5 => 0x04 case 6 => 0x02 case _ => 0x01
  }

  // ---------------------------------------------------------------- the loops

  /** CRC8_p93_reference: eight rounds over crc xor data, with no table. */
  method Reference(init: bv8, data: bv8) returns (crc: bv8)
    ensures crc == Next(init, data)
    ensures Digits(crc) == Serial(Digits(init), Digits(data))
  {
    crc := init ^ data;
    for i := 0 to 8
      invariant crc == Shifted(init ^ data, i)
    {
      if crc & 0x80 != 0 {
        crc := crc << 1;
        crc := crc ^ 0x93;
      } else {
        crc := crc << 1;
      }
    }
    TableIsBitwise(init ^ data);
    NextIsSerial(init, data);
  }

  /** A byte goes into a machine register, and comes out of one. */
  method Load(b: byte) returns (x: bv8)
    ensures x == MachineByte(b) && Digits(x) == BitsOf(8, b)
  {
    DigitsOfByte(b);
    x := MachineByte(b);
  }

  method Store(x: bv8) returns (b: byte)
    ensures b == x as int && BitsOf(8, b) == Digits(x)
  {
    ValueOfDigits(x);
    BitsOfValue(Digits(x));
    b := x as int;
  }

  /** CRC8_p93_n: the table-driven fold. */
  method Fold(init: byte, bs: seq<byte>) returns (r: byte)
    ensures r == Crc8(init, bs)
  {
    var crc := Load(init);
    for i := 0 to |bs|
      invariant Digits(crc) == Serial(BitsOf(8, init), MessageBits(bs[..i]))
    {
      var d := Load(bs[i]);
      FoldStep(init, bs, i, crc, d);
      crc := Next(crc, d);
    }
    assert bs[..|bs|] == bs;
    CrcBits(init, bs);
    r := Store(crc);
    EqualBitsEqualBytes(r, Crc8(init, bs));
  }

  /** CRC8_p93_2n: the fold with its first byte apart. */
  method FoldAfter(b1: byte, bs: seq<byte>) returns (crc: byte)
    ensures crc == Crc8(0, [b1] + bs)
  {
    var first := Fold(0, [b1]);
    crc := Fold(first, bs);
    Composes(0, [b1], bs);
  }

  // ---------------------------------------------------------------- the table

  lemma Unroll(x: bv8)
    ensures Shifted(x, 8) == Shifted8(x)
  {
    assert Shifted(x, 1) == Shift(x);
    assert Shifted(x, 2) == Shift(Shift(x));
    assert Shifted(x, 4) == Shift(Shift(Shifted(x, 2)));
    assert Shifted(x, 6) == Shift(Shift(Shifted(x, 4)));
  }

  lemma Rows0to3(x: bv8)
    requires x < 16
    ensures Row0(x) == Shifted8(x | 0x00)
    ensures Row1(x) == Shifted8(x | 0x10)
    ensures Row2(x) == Shifted8(x | 0x20)
    ensures Row3(x) == Shifted8(x | 0x30)
  {}

  lemma Rows4to7(x: bv8)
    requires x < 16
    ensures Row4(x) == Shifted8(x | 0x40)
    ensures Row5(x) == Shifted8(x | 0x50)
    ensures Row6(x) == Shifted8(x | 0x60)
    ensures Row7(x) == Shifted8(x | 0x70)
  {}

  lemma Rows8toB(x: bv8)
    requires x < 16
    ensures Row8(x) == Shifted8(x | 0x80)
    ensures Row9(x) == Shifted8(x | 0x90)
    ensures RowA(x) == Shifted8(x | 0xa0)
    ensures RowB(x) == Shifted8(x | 0xb0)
  {}

  lemma RowsCtoF(x: bv8)
    requires x < 16
    ensures RowC(x) == Shifted8(x | 0xc0)
    ensures RowD(x) == Shifted8(x | 0xd0)
    ensures RowE(x) == Shifted8(x | 0xe0)
    ensures RowF(x) == Shifted8(x | 0xf0)
  {}

  lemma TableIsShifted8(x: bv8)
    ensures Lookup(x) == Shifted8(x)
  {
    var low := x & 0x0f;
    Rows0to3(low);
    Rows4to7(low);
    Rows8toB(low);
    RowsCtoF(low);
  }

  /** The table holds, for every index, the result of eight bitwise rounds. */
  lemma TableIsBitwise(x: bv8)
    ensures Lookup(x) == Shifted(x, 8)
  {
    TableIsShifted8(x);
    Unroll(x);
  }

  // ---------------------------------------------------------------- table and divider

  /** A round is a clock of the divider with no message bit. */
  lemma ShiftIsStep(x: bv8)
    ensures Digits(Shift(x)) == Clock(Digits(x), false)
  {
    forall i | 0 <= i < 8 ensures Digits(Shift(x))[i] == Clock(Digits(x), false)[i] {
      DigitOfPolynomial(i);
      if x & 0x80 != 0 {
        DigitOfXor(x << 1, 0x93, i);
      }
      DigitOfShift(x, i);
    }
  }

  lemma DigitOfPolynomial(i: nat)
    requires i < 8
    ensures Digit(0x93, i) == POLY_93[i]
  {}

  lemma DigitOfShift(x: bv8, i: nat)
    requires i < 8
    ensures Digit(x << 1, i) == (i < 7 && Digit(x, i + 1))
    ensures Digit(x, 0) == (x & 0x80 != 0)
  {}

  lemma DigitOfXor(x: bv8, y: bv8, i: nat)
    requires i < 8
    ensures Digit(x ^ y, i) == (Digit(x, i) != Digit(y, i))
  {
    MaskIsMask(i);
    XorUnderMask(x, y, Mask(i));
  }

  lemma MaskIsMask(i: nat)
    requires i < 8
    ensures IsMask(Mask(i))
  {}

  lemma XorUnderMask(x: bv8, y: bv8, m: bv8)
    requires IsMask(m)
    ensures Under(x ^ y, m) <==> Under(x, m) != Under(y, m)
  {}

  lemma {:induction false} ShiftedIsSerial(x: bv8, n: nat)
    ensures Digits(Shifted(x, n)) == Serial(Digits(x), ZeroBits(n))
  {
    if n > 0 {
      ShiftedIsSerial(x, n - 1);
      ShiftIsStep(Shifted(x, n - 1));
      assert ZeroBits(n)[..n - 1] == ZeroBits(n - 1);
    }
  }

  lemma DigitsOfXor(x: bv8, y: bv8)
    ensures Digits(x ^ y) == XorBits(Digits(x), Digits(y))
  {
    forall i | 0 <= i < 8 ensures Digits(x ^ y)[i] == (Digits(x)[i] != Digits(y)[i]) {
      DigitOfXor(x, y, i);
    }
  }

  /** One table step on a byte is eight clocks of the divider on its bits. */
  lemma NextIsSerial(crc: bv8, data: bv8)
    ensures Digits(Next(crc, data)) == Serial(Digits(crc), Digits(data))
  {
    TableStepIsSerial(crc ^ data, Lookup(crc ^ data));
    DigitsOfXor(crc, data);
    LoadThenClock(Digits(crc), Digits(data));
  }

  lemma CrcOfTwo()
    ensures Crc8(0, [2]) == 0xb5
  {
    DigitsAre(0, 0);
    DigitsAre(2, 2);
    NextOfTwo();
    CrcFromZero(2, Digits(0), Digits(2), Digits(0xb5));
    ValueOfDigits(0xb5);
  }

  lemma DigitsAre(b: byte, x: bv8)
    requires b == x as int
    ensures Digits(x) == BitsOf(8, b)
  {
    DigitsOfByte(b);
    MachineByteIsTheByte(b);
  }

  lemma NextOfTwo()
    ensures Digits(0xb5) == Serial(Digits(0), Digits(2))
  {
    NextIsSerial(0, 2);
  }

  lemma CrcFromZero(b: byte, z: seq<bool>, m: seq<bool>, d: seq<bool>)
    requires z == BitsOf(8, 0) && m == BitsOf(8, b) && |d| == 8 && d == Serial(z, m)
    ensures Crc8(0, [b]) == Value(d)
  {
    assert [b][..0] == [];
    assert Crc8(0, []) == 0;
  }

  lemma TableStepIsSerial(x: bv8, r: bv8)
    requires r == Lookup(x)
    ensures Digits(r) == Serial(Digits(x), ZeroBits(8))
  {
    TableIsBitwise(x);
    ShiftedIsSerial(x, 8);
  }

  lemma LoadThenClock(c: seq<bool>, d: seq<bool>)
    requires |c| == |d| == 8
    ensures Serial(XorBits(c, d), ZeroBits(8)) == Serial(c, d)
  {
    DifferenceIsSpent(XorBits(c, d), ZeroBits(8), c, d);
  }

  lemma FoldStep(init: byte, bs: seq<byte>, i: nat, crc: bv8, d: bv8)
    requires i < |bs| && Digits(d) == BitsOf(8, bs[i])
    requires Digits(crc) == Serial(BitsOf(8, init), MessageBits(bs[..i]))
    ensures Digits(Next(crc, d)) == Serial(BitsOf(8, init), MessageBits(bs[..i + 1]))
  {
    NextIsSerial(crc, d);
    OneMoreByte(BitsOf(8, init), bs, i);
  }

  lemma OneMoreByte(r: seq<bool>, bs: seq<byte>, i: nat)
    requires |r| == 8 && i < |bs|
    ensures Serial(r, MessageBits(bs[..i + 1])) == Serial(Serial(r, MessageBits(bs[..i])), BitsOf(8, bs[i]))
  {
    assert bs[..i + 1][..i] == bs[..i];
    SerialComposes(r, MessageBits(bs[..i]), BitsOf(8, bs[i]));
  }

  lemma ValueOfDigits(x: bv8)
    ensures Value(Digits(x)) == x as int
  {
    var d := Digits(x);
    ValueOfEightDigits(d);
    SumOfWeights(x, d[0], d[1], d[2], d[3], d[4], d[5], d[6], d[7]);
  }

  lemma ValueOfEightDigits(d: seq<bool>)
    requires |d| == 8
    ensures Value(d) == Weigh(d[0], d[1], d[2], d[3], d[4], d[5], d[6], d[7])
  {
    ValueOfFourDigits(d);
    ValueStep(d, 5);
    ValueStep(d, 6);
    ValueStep(d, 7);
    ValueStep(d, 8);
    assert d[..8] == d;
  }

  lemma ValueOfFourDigits(d: seq<bool>)
    requires |d| == 8
    ensures Value(d[..4]) == 8 * Weight(d[0]) + 4 * Weight(d[1]) + 2 * Weight(d[2]) + Weight(d[3])
  {
    ValueStep(d, 1);
    ValueStep(d, 2);
    ValueStep(d, 3);
    ValueStep(d, 4);
    assert d[..0] == [];
  }

  lemma ValueStep(d: seq<bool>, n: nat)
    requires 0 < n <= |d|
    ensures Value(d[..n]) == 2 * Value(d[..n - 1]) + Weight(d[n - 1])
  {
    assert d[..n][..n - 1] == d[..n - 1];
  }

  function Weight(b: bool): (r: nat) {
    if b then 1 else 0
  }

  lemma SumOfWeights(x: bv8, a: bool, b: bool, c: bool, d: bool, e: bool, f: bool, g: bool, h: bool)
    requires a == Digit(x, 0) && b == Digit(x, 1) && c == Digit(x, 2) && d == Digit(x, 3)
    requires e == Digit(x, 4) && f == Digit(x, 5) && g == Digit(x, 6) && h == Digit(x, 7)
    ensures x as int == Weigh(a, b, c, d, e, f, g, h)
  {}

  function Weigh(a: bool, b: bool, c: bool, d: bool, e: bool, f: bool, g: bool, h: bool): (r: nat) {
    128 * Weight(a) + 64 * Weight(b) + 32 * Weight(c) + 16 * Weight(d)
    + 8 * Weight(e) + 4 * Weight(f) + 2 * Weight(g) + Weight(h)
  }

  lemma DigitsOfAssembled(x: bv8, a: bool, b: bool, c: bool, d: bool, e: bool, f: bool, g: bool, h: bool)
    requires x == Assembled(a, b, c, d, e, f, g, h)
    ensures Digit(x, 0) == a && Digit(x, 1) == b && Digit(x, 2) == c && Digit(x, 3) == d
    ensures Digit(x, 4) == e && Digit(x, 5) == f && Digit(x, 6) == g && Digit(x, 7) == h
  {}

  lemma DigitsOfByte(b: byte)
    ensures Digits(MachineByte(b)) == BitsOf(8, b)
  {
    var s := BitsOf(8, b);
    DigitsOfAssembled(MachineByte(b), s[0], s[1], s[2], s[3], s[4], s[5], s[6], s[7]);
  }

  /** A number and its machine byte are the same value. */
  lemma MachineByteIsTheByte(b: byte)
    ensures MachineByte(b) as int == b
  {
    var x := MachineByte(b);
    DigitsOfByte(b);
    ValueOfDigits(x);
    BitsOfValue(Digits(x));
    EqualBitsEqualBytes(x as int, b);
  }
}
