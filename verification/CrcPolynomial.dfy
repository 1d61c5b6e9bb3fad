/** The CRC is the remainder of polynomial division over GF(2): an account of it that
    mentions no register and no table.  A polynomial is its coefficients, highest first. */
module CrcPolynomial {
  import opened Bytes
  import opened Crc

  /** q times x^8 + x^7 + x^4 + x + 1, by schoolbook multiplication. */
  function Product(q: seq<bool>): (r: seq<bool>)
    ensures |r| == |q| + 8
  {
    if q == [] then ZeroBits(8)
    else
      var n := |q| - 1;
      XorBits(Product(q[..n]) + [false],
              ZeroBits(n) + (if q[n] then [true] + POLY_93 else ZeroBits(9)))
  }

  /** m · x^8 == q · P + r, with r of degree below 8. */
  predicate IsDivision(m: seq<bool>, q: seq<bool>, r: seq<bool>) {
    && |q| == |m|
    && |r| == 8
    && m + ZeroBits(8) == XorBits(Product(q), ZeroBits(|m|) + r)
  }

  function Quotient(m: seq<bool>): (q: seq<bool>)
    ensures |q| == |m|
  {
    if m == [] then []
    else
      var n := |m| - 1;
      Quotient(m[..n]) + [Serial(ZeroBits(8), m[..n])[0] != m[n]]
  }

  lemma {:induction false} RegisterDivides(m: seq<bool>)
    ensures IsDivision(m, Quotient(m), Serial(ZeroBits(8), m))
  {
    var q, r := Quotient(m), Serial(ZeroBits(8), m);
    if m != [] {
      var n := |m| - 1;
      var m0, r0 := m[..n], Serial(ZeroBits(8), m[..n]);
      var q0 := Quotient(m0);
      RegisterDivides(m0);
      assert q[..n] == q0 && q[n] == (r0[0] != m[n]);
      DivisionGrows(m, q, r, n, r0);
    }
  }

  /** One more digit: the quotient takes the bit that falls out, the remainder is one clock on. */
  lemma DivisionGrows(m: seq<bool>, q: seq<bool>, r: seq<bool>, n: nat, r0: seq<bool>)
    requires |m| == |q| == n + 1 && IsDivision(m[..n], q[..n], r0)
    requires r == Clock(r0, m[n]) && q[n] == (r0[0] != m[n])
    ensures IsDivision(m, q, r)
  {
    var left, right := m + ZeroBits(8), XorBits(Product(q), ZeroBits(n + 1) + r);
    forall i | 0 <= i < n + 9 ensures left[i] == right[i] {
      DigitOfDivision(m[..n], q[..n], r0, i);
      ShiftedDigit(r0, m[n], r, i - n);
      ProductDigit(q, i);
    }
  }

  /** Digit i of the division of the shorter message, one place further left. */
  lemma DigitOfDivision(m: seq<bool>, q: seq<bool>, r: seq<bool>, i: nat)
    requires IsDivision(m, q, r) && i < |m| + 9
    ensures (i < |m| && m[i])
         == ((i < |m| + 8 && Product(q)[i]) != (|m| <= i < |m| + 8 && r[i - |m|]))
  {
    if i < |m| + 8 {
      assert (m + ZeroBits(8))[i] == XorBits(Product(q), ZeroBits(|m|) + r)[i];
    }
  }

  /** One clock of the register, coefficient by coefficient. */
  lemma ShiftedDigit(r: seq<bool>, b: bool, r': seq<bool>, k: int)
    requires |r| == 8 && r' == Clock(r, b)
    ensures 0 < k < 9 ==> r'[k - 1] == ((k < 8 && r[k]) != ((r[0] != b) && ([true] + POLY_93)[k]))
    ensures k == 0 ==> ((r[0] != b) && ([true] + POLY_93)[k]) == (r[0] != b)
  {}

  /** A multiple of P whose only nonzero coefficients are the last eight is zero. */
  lemma {:induction false} SmallMultipleIsZero(q: seq<bool>, r: seq<bool>)
    requires |r| == 8 && Product(q) == ZeroBits(|q|) + r
    ensures q == ZeroBits(|q|) && r == ZeroBits(8)
  {
    if q != [] {
      var n := |q| - 1;
      var p, low := Product(q[..n]), Product(q[..n])[n..];
      forall i | 0 <= i < n ensures !p[i] {
        ProductDigit(q, i);
      }
      assert p == ZeroBits(n) + low;
      SmallMultipleIsZero(q[..n], low);
      ProductDigit(q, n);
      forall i | 0 <= i < 8 ensures !r[i] {
        ProductDigit(q, n + 1 + i);
      }
    }
  }

  lemma ProductDigit(q: seq<bool>, i: nat)
    requires |q| > 0 && i < |q| + 8
    ensures var n := |q| - 1;
            Product(q)[i] == ((i < n + 8 && Product(q[..n])[i])
                              != (q[n] && i >= n && ([true] + POLY_93)[i - n]))
  {
    var n := |q| - 1;
    ShiftedIn(Product(q[..n]), n, q[n], Product(q), i);
  }

  /** The last coefficient's contribution, digit by digit. */
  lemma ShiftedIn(p: seq<bool>, n: nat, b: bool, r: seq<bool>, i: nat)
    requires |p| == n + 8 && i < n + 9
    requires r == XorBits(p + [false], ZeroBits(n) + (if b then [true] + POLY_93 else ZeroBits(9)))
    ensures r[i] == ((i < n + 8 && p[i]) != (b && i >= n && ([true] + POLY_93)[i - n]))
  {
    var last := if b then [true] + POLY_93 else ZeroBits(9);
    assert (ZeroBits(n) + last)[i] == (i >= n && last[i - n]);
  }

  lemma {:induction false} ProductIsLinear(a: seq<bool>, b: seq<bool>)
    requires |a| == |b|
    ensures Product(XorBits(a, b)) == XorBits(Product(a), Product(b))
  {
    if a != [] {
      var n := |a| - 1;
      ProductIsLinear(a[..n], b[..n]);
      assert XorBits(a, b)[..n] == XorBits(a[..n], b[..n]);
    }
  }

  /** Division has one quotient and one remainder. */
  lemma DivisionIsUnique(m: seq<bool>, q: seq<bool>, r: seq<bool>, q': seq<bool>, r': seq<bool>)
    requires IsDivision(m, q, r) && IsDivision(m, q', r')
    ensures q == q' && r == r'
  {
    var dq, dr := XorBits(q, q'), XorBits(r, r');
    ProductIsLinear(q, q');
    forall i | 0 <= i < |m| + 8 ensures Product(dq)[i] == (ZeroBits(|m|) + dr)[i] {
      assert (m + ZeroBits(8))[i] == XorBits(Product(q), ZeroBits(|m|) + r)[i];
      assert (m + ZeroBits(8))[i] == XorBits(Product(q'), ZeroBits(|m|) + r')[i];
    }
    SmallMultipleIsZero(dq, dr);
    forall i | 0 <= i < |q| ensures q[i] == q'[i] {
      assert !dq[i];
    }
    forall i | 0 <= i < 8 ensures r[i] == r'[i] {
      assert !dr[i];
    }
  }

  /** The CRC of a byte string from 0 is the remainder of its bits times x^8 divided by P,
      and nothing else is. */
  lemma CrcIsTheRemainder(bs: seq<byte>, r: seq<bool>)
    ensures BitsOf(8, Crc8(0, bs)) == r <==> exists q :: IsDivision(MessageBits(bs), q, r)
  {
    var m, s := MessageBits(bs), Serial(ZeroBits(8), MessageBits(bs));
    CrcBits(0, bs);
    ZeroByte();
    RegisterDivides(m);
    if s == r {
      assert IsDivision(m, Quotient(m), r);
    }
    forall q | IsDivision(m, q, r) ensures r == s {
      DivisionIsUnique(m, q, r, Quotient(m), s);
    }
  }
}
