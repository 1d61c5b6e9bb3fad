/** What the CRC-8 of a byte string is: the register of a bit-serial divider for the
    polynomial x^8 + x^7 + x^4 + x + 1, and which corruptions it catches. */
module Crc {
  import opened Bytes

  /** 0x93: the polynomial without its leading term, most significant coefficient first. */
  const POLY_93: seq<bool> := [true, false, false, true, false, false, true, true]

  function ZeroBits(n: nat): (r: seq<bool>)
    ensures |r| == n
  {
    seq(n, _ => false)
  }

  function XorBits(a: seq<bool>, b: seq<bool>): (r: seq<bool>)
    requires |a| == |b|
    ensures |r| == |a|
  {
    seq(|a|, i requires 0 <= i < |a| => a[i] != b[i])
  }

  /** The low n binary digits of x, most significant first. */
  function BitsOf(n: nat, x: nat): (r: seq<bool>)
    ensures |r| == n
  {
    if n == 0 then [] else BitsOf(n - 1, x / 2) + [x % 2 == 1]
  }

  function Value(bits: seq<bool>): (r: nat) {
    if bits == [] then 0
    else 2 * Value(bits[..|bits| - 1]) + (if bits[|bits| - 1] then 1 else 0)
  }

  /** One clock of the divider: shift left, subtract the polynomial when the bit that falls
      out differs from the incoming message bit. */
  function Clock(r: seq<bool>, b: bool): (r': seq<bool>)
    requires |r| == 8
    ensures |r'| == 8
  {
    var out := r[0] != b;
    seq(8, i requires 0 <= i < 8 => (i < 7 && r[i + 1]) != (out && POLY_93[i]))
  }

  function Serial(r: seq<bool>, bits: seq<bool>): (r': seq<bool>)
    requires |r| == 8
    ensures |r'| == 8
  {
    if bits == [] then r else Clock(Serial(r, bits[..|bits| - 1]), bits[|bits| - 1])
  }

  function MessageBits(bs: seq<byte>): (r: seq<bool>)
    ensures |r| == 8 * |bs|
  {
    if bs == [] then [] else MessageBits(bs[..|bs| - 1]) + BitsOf(8, bs[|bs| - 1])
  }

  /** The CRC of a byte string from a starting value. */
  function Crc8(init: byte, bs: seq<byte>): (r: byte)
    decreases |bs|, 0
  {
    if bs == [] then init else CrcExtended(init, bs[..|bs| - 1], bs[|bs| - 1])
  }

  /** The CRC of bs and one more byte: eight clocks with that byte's bits. */
  function CrcExtended(init: byte, bs: seq<byte>, last: byte): (r: byte)
    decreases |bs|, 1
  {
    var r := Serial(BitsOf(8, Crc8(init, bs)), BitsOf(8, last));
    ValueOfEight(r);
    Value(r)
  }

  // ---------------------------------------------------------------- bits and bytes

  lemma ValueOfEight(bits: seq<bool>)
    requires |bits| == 8
    ensures Value(bits) < 256
  {
    ValueBound(bits[..7], 128);
  }

  lemma ValueBound(bits: seq<bool>, bound: nat)
    requires (|bits| == 7 && bound == 128) || (|bits| == 6 && bound == 64)
          || (|bits| == 5 && bound == 32) || (|bits| == 4 && bound == 16)
          || (|bits| == 3 && bound == 8) || (|bits| == 2 && bound == 4)
          || (|bits| == 1 && bound == 2) || (|bits| == 0 && bound == 1)
    ensures Value(bits) < bound
  {
    if bits != [] {
      ValueBound(bits[..|bits| - 1], bound / 2);
    }
  }

  lemma {:induction false} BitsOfValue(bits: seq<bool>)
    ensures BitsOf(|bits|, Value(bits)) == bits
  {
    if bits != [] {
      BitsOfValue(bits[..|bits| - 1]);
    }
  }

  lemma {:induction false} EqualBitsEqualNumbers(n: nat, bound: nat, x: nat, y: nat)
    requires bound == Pow2(n) && x < bound && y < bound && BitsOf(n, x) == BitsOf(n, y)
    ensures x == y
  {
    if n > 0 {
      var a, b := BitsOf(n, x), BitsOf(n, y);
      assert a[..n - 1] == BitsOf(n - 1, x / 2) && b[..n - 1] == BitsOf(n - 1, y / 2);
      assert a[n - 1] == b[n - 1];
      EqualBitsEqualNumbers(n - 1, bound / 2, x / 2, y / 2);
    }
  }

  function Pow2(n: nat): (r: nat) {
    if n == 0 then 1 else 2 * Pow2(n - 1)
  }

  lemma EqualBitsEqualBytes(x: byte, y: byte)
    requires BitsOf(8, x) == BitsOf(8, y)
    ensures x == y
  {
    assert Pow2(4) == 16 && Pow2(8) == 256;
    EqualBitsEqualNumbers(8, 256, x, y);
  }

  lemma MessageBitsInjective(a: seq<byte>, b: seq<byte>)
    requires MessageBits(a) == MessageBits(b)
    ensures a == b
  {
    if a != [] {
      var n := |a| - 1;
      var p, q := MessageBits(a), MessageBits(b);
      assert p[..8 * n] == MessageBits(a[..n]) && q[..8 * n] == MessageBits(b[..n]);
      assert p[8 * n..] == BitsOf(8, a[n]) && q[8 * n..] == BitsOf(8, b[n]);
      MessageBitsInjective(a[..n], b[..n]);
      EqualBitsEqualBytes(a[n], b[n]);
      assert a == a[..n] + [a[n]] && b == b[..n] + [b[n]];
    }
  }

  // ---------------------------------------------------------------- the divider

  lemma {:induction false} SerialComposes(r: seq<bool>, a: seq<bool>, b: seq<bool>)
    requires |r| == 8
    ensures Serial(r, a + b) == Serial(Serial(r, a), b)
  {
    if b == [] {
      assert a + b == a;
    } else {
      var n := |b| - 1;
      assert (a + b)[..|a + b| - 1] == a + b[..n];
      SerialComposes(r, a, b[..n]);
    }
  }

  /** The CRC's digits are the register after the whole message. */
  lemma {:induction false} CrcBits(init: byte, bs: seq<byte>)
    ensures BitsOf(8, Crc8(init, bs)) == Serial(BitsOf(8, init), MessageBits(bs))
  {
    if bs != [] {
      var n := |bs| - 1;
      CrcBits(init, bs[..n]);
      var c, last := BitsOf(8, Crc8(init, bs[..n])), BitsOf(8, bs[n]);
      assert Crc8(init, bs) == Value(Serial(c, last));
      BitsOfValue(Serial(c, last));
      SerialComposes(BitsOf(8, init), MessageBits(bs[..n]), last);
    }
  }

  /** The fold may be split anywhere: the sender computes it in two pieces. */
  lemma {:induction false} Composes(init: byte, a: seq<byte>, b: seq<byte>)
    ensures Crc8(init, a + b) == Crc8(Crc8(init, a), b)
  {
    if b == [] {
      assert a + b == a;
    } else {
      var n := |b| - 1;
      assert (a + b)[..|a + b| - 1] == a + b[..n];
      Composes(init, a, b[..n]);
    }
  }

  /** Undoing one clock: what agrees afterwards from position j on agreed before it from
      position j + 1 on, and the same bit fell out. */
  lemma Undo(r: seq<bool>, b: bool, s: seq<bool>, d: bool, j: nat)
    requires |r| == |s| == 8 && j < 8
    requires forall i | j <= i < 8 :: Clock(r, b)[i] == Clock(s, d)[i]
    ensures forall i | j + 1 <= i < 8 :: r[i] == s[i]
    ensures (r[0] != b) == (s[0] != d)
  {
    assert Clock(r, b)[7] == Clock(s, d)[7];
    forall i | j + 1 <= i < 8 ensures r[i] == s[i] {
      assert Clock(r, b)[i - 1] == Clock(s, d)[i - 1];
    }
  }

  /** At most eight message bits are recovered by the register they lead to. */
  lemma {:induction false} WindowIsInjective(c: seq<bool>, x: seq<bool>, y: seq<bool>, j: nat)
    requires |c| == 8 && |x| == |y| && j + |x| <= 8
    requires forall i | j <= i < 8 :: Serial(c, x)[i] == Serial(c, y)[i]
    ensures x == y
  {
    if x != [] {
      var n := |x| - 1;
      assert Serial(c, x) == Clock(Serial(c, x[..n]), x[n]);
      assert Serial(c, y) == Clock(Serial(c, y[..n]), y[n]);
      Undo(Serial(c, x[..n]), x[n], Serial(c, y[..n]), y[n], j);
      WindowIsInjective(c, x[..n], y[..n], j + 1);
      assert x == x[..n] + [x[n]] && y == y[..n] + [y[n]];
    }
  }

  /** Registers that differ stay different over any common message. */
  lemma {:induction false} RegistersStayApart(r: seq<bool>, s: seq<bool>, bits: seq<bool>)
    requires |r| == |s| == 8 && r != s
    ensures Serial(r, bits) != Serial(s, bits)
  {
    if bits != [] {
      var n := |bits| - 1;
      RegistersStayApart(r, s, bits[..n]);
      var p, q := Serial(r, bits[..n]), Serial(s, bits[..n]);
      if Clock(p, bits[n]) == Clock(q, bits[n]) {
        StepIsInjective(p, q, bits[n]);
      }
    }
  }

  lemma StepIsInjective(r: seq<bool>, s: seq<bool>, b: bool)
    requires |r| == |s| == 8 && Clock(r, b) == Clock(s, b)
    ensures r == s
  {
    Undo(r, b, s, b, 0);
  }

  /** When two registers differ exactly as the next messages do, the difference is spent. */
  lemma {:induction false} DifferenceIsSpent(r: seq<bool>, x: seq<bool>, s: seq<bool>, y: seq<bool>)
    requires |r| == |s| == 8 && |x| == |y| <= 8
    requires forall i | 0 <= i < 8 :: (r[i] != s[i]) == (i < |x| && x[i] != y[i])
    ensures Serial(r, x) == Serial(s, y)
    decreases |x|
  {
    if x == [] {
      assert r == s;
    } else {
      var r', s', x', y' := Clock(r, x[0]), Clock(s, y[0]), x[1..], y[1..];
      assert (r[0] != x[0]) == (s[0] != y[0]);
      forall i | 0 <= i < 8 ensures (r'[i] != s'[i]) == (i < |x'| && x'[i] != y'[i]) {
        if i < 7 {
          assert (r'[i] != s'[i]) == (r[i + 1] != s[i + 1]);
        }
      }
      DifferenceIsSpent(r', x', s', y');
      SerialFirst(r, x);
      SerialFirst(s, y);
    }
  }

  lemma SerialFirst(r: seq<bool>, x: seq<bool>)
    requires |r| == 8 && |x| > 0
    ensures Serial(r, x) == Serial(Clock(r, x[0]), x[1..])
  {
    SerialComposes(r, [x[0]], x[1..]);
    assert x == [x[0]] + x[1..];
    SerialOne(r, x[0]);
  }

  lemma SerialOne(r: seq<bool>, b: bool)
    requires |r| == 8
    ensures Serial(r, [b]) == Clock(r, b)
  {
    assert [b][..0] == [];
  }

  lemma {:induction false} ZeroStaysZero(n: nat)
    ensures Serial(ZeroBits(8), ZeroBits(n)) == ZeroBits(8)
  {
    if n > 0 {
      assert ZeroBits(n)[..n - 1] == ZeroBits(n - 1);
      ZeroStaysZero(n - 1);
      assert Clock(ZeroBits(8), false) == ZeroBits(8);
    }
  }

  /** Feeding a register the bits x leads to zero exactly when x is its own content. */
  lemma OwnBitsClear(r: seq<bool>, x: seq<bool>)
    requires |r| == |x| == 8
    ensures Serial(r, x) == ZeroBits(8) <==> x == r
  {
    DifferenceIsSpent(r, r, ZeroBits(8), ZeroBits(8));
    ZeroStaysZero(8);
    if Serial(r, x) == ZeroBits(8) {
      WindowIsInjective(r, x, r, 0);
    }
  }

  // ---------------------------------------------------------------- what the check catches

  /** The comparison both receivers make: the last byte against the CRC of the rest. */
  predicate Checks(frame: seq<byte>)
    requires |frame| >= 1
  {
    frame[|frame| - 1] == Crc8(0, frame[..|frame| - 1])
  }

  /** g equals f outside the eight bit positions from p on. */
  ghost predicate SameOutside(f: seq<bool>, g: seq<bool>, p: nat) {
    |f| == |g| && forall i: nat | i < |f| && !(p <= i < p + 8) :: f[i] == g[i]
  }

  /** Another frame of the same length, different only inside eight consecutive bits. */
  ghost predicate Burst(f: seq<byte>, g: seq<byte>, p: nat) {
    |f| == |g| && f != g && SameOutside(MessageBits(f), MessageBits(g), p)
  }

  /** A frame passes exactly when the division of all of it, CRC included, leaves nothing. */
  lemma ChecksIffDivides(frame: seq<byte>)
    requires |frame| >= 1
    ensures Checks(frame) <==> Serial(ZeroBits(8), MessageBits(frame)) == ZeroBits(8)
  {
    var n := |frame| - 1;
    var r, last, crc := Serial(ZeroBits(8), MessageBits(frame[..n])), BitsOf(8, frame[n]), Crc8(0, frame[..n]);
    RegisterOfFrame(frame, n, r, last);
    OwnBitsClear(r, last);
    CrcRegister(frame[..n], crc, r);
    SameByteIff(frame[n], crc, r, last);
  }

  lemma SameByteIff(b: byte, crc: byte, r: seq<bool>, last: seq<bool>)
    requires last == BitsOf(8, b) && r == BitsOf(8, crc)
    ensures b == crc <==> last == r
  {
    if last == r {
      EqualBitsEqualBytes(b, crc);
    }
  }

  lemma RegisterOfFrame(frame: seq<byte>, n: nat, r: seq<bool>, last: seq<bool>)
    requires |frame| == n + 1 && r == Serial(ZeroBits(8), MessageBits(frame[..n])) && last == BitsOf(8, frame[n])
    ensures Serial(ZeroBits(8), MessageBits(frame)) == Serial(r, last)
  {
    SerialComposes(ZeroBits(8), MessageBits(frame[..n]), last);
  }

  lemma CrcRegister(bs: seq<byte>, crc: byte, r: seq<bool>)
    requires crc == Crc8(0, bs) && r == Serial(ZeroBits(8), MessageBits(bs))
    ensures BitsOf(8, crc) == r
  {
    CrcBits(0, bs);
    ZeroByte();
  }

  lemma ZeroByte()
    ensures BitsOf(8, 0) == ZeroBits(8)
  {
    ZeroDigits(8);
  }

  lemma {:induction false} ZeroDigits(n: nat)
    ensures BitsOf(n, 0) == ZeroBits(n)
  {
    if n > 0 {
      ZeroDigits(n - 1);
    }
  }

  lemma BurstMovesTheRegister(f: seq<bool>, g: seq<bool>, p: nat)
    requires f != g && SameOutside(f, g, p) && p + 8 <= |f|
    ensures Serial(ZeroBits(8), f) != Serial(ZeroBits(8), g)
  {
    var x, y, tail := f[p..p + 8], g[p..p + 8], f[p + 8..];
    assert f[..p] == g[..p] && tail == g[p + 8..];
    assert f == f[..p] + (x + tail) && g == g[..p] + (y + tail);
    WindowMovesTheRegister(Serial(ZeroBits(8), f[..p]), x, y, tail);
    SerialComposes(ZeroBits(8), f[..p], x + tail);
    SerialComposes(ZeroBits(8), g[..p], y + tail);
  }

  lemma WindowMovesTheRegister(c: seq<bool>, x: seq<bool>, y: seq<bool>, tail: seq<bool>)
    requires |c| == |x| == |y| == 8 && x != y
    ensures Serial(c, x + tail) != Serial(c, y + tail)
  {
    SerialComposes(c, x, tail);
    SerialComposes(c, y, tail);
    if Serial(c, x) == Serial(c, y) {
      WindowIsInjective(c, x, y, 0);
    } else {
      RegistersStayApart(Serial(c, x), Serial(c, y), tail);
    }
  }

  /** A frame that passes, hit by a burst of at most eight bits anywhere, does not pass. */
  lemma BurstDetected(f: seq<byte>, g: seq<byte>, p: nat)
    requires |f| >= 1 && Checks(f) && Burst(f, g, p)
    ensures !Checks(g)
  {
    var m, m' := MessageBits(f), MessageBits(g);
    ChecksIffDivides(f);
    ChecksIffDivides(g);
    if m == m' {
      MessageBitsInjective(f, g);
    }
    var p' := if p + 8 <= |m| then p else |m| - 8;
    assert SameOutside(m, m', p');
    BurstMovesTheRegister(m, m', p');
  }

  /** Eight is the best possible: the nine-bit burst that is the polynomial itself leads to
      the same register, wherever it falls and whatever the message. */
  lemma NineBitBurstPasses(pre: seq<bool>, x: seq<bool>, post: seq<bool>)
    requires |x| == 9
    ensures Serial(ZeroBits(8), pre + x + post)
         == Serial(ZeroBits(8), pre + XorBits(x, [true] + POLY_93) + post)
  {
    var z, y := ZeroBits(8), XorBits(x, [true] + POLY_93);
    SerialComposes(z, pre + x, post);
    SerialComposes(z, pre + y, post);
    SerialComposes(z, pre, x);
    SerialComposes(z, pre, y);
    var c := Serial(z, pre);
    SerialFirst(c, x);
    SerialFirst(c, y);
    DifferenceIsSpent(Clock(c, x[0]), x[1..], Clock(c, y[0]), y[1..]);
  }
}
