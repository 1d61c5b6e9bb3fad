/** Exactly which systems of nominals the greedy answer is right for, whatever their size. */
module CurrencyComplete {
  import opened Currency
  import opened CurrencyPass
  import opened CurrencyGreedy

  /** The least multiple of m above n. */
  function NextMultipleAbove(n: nat, m: nat): (r: nat)
    requires m > 0
  {
    (n / m + 1) * m
  }

  lemma NextIsLeast(n: nat, m: nat, y: nat)
    requires m > 0 && y * m > n
    ensures NextMultipleAbove(n, m) <= y * m
  {
    QuotientFits(n, m);
    if y <= n / m {
      MulMono(y, n / m, m);
    } else {
      MulMono(n / m + 1, y, m);
    }
  }

  lemma NextIsNear(n: nat, m: nat)
    requires m > 0
    ensures n < NextMultipleAbove(n, m) <= n + m
  {
    QuotientFits(n, m);
    OneMore(n / m, m);
  }

  /** The smaller nominal m divides the larger n, or its next multiple above n is more than a. */
  predicate TamePair(n: nat, m: nat, a: nat)
    requires m > 0
  {
    n % m == 0 || NextMultipleAbove(n, m) > a
  }

  /** Of two nominals up to the amount, the smaller divides the larger, or its next multiple
      above the larger is more than the amount. */
  predicate Tame(o: seq<nat>, a: nat)
    requires AllPositive(o)
  {
    forall i, j | 0 <= i < j < |o| && o[i] <= a :: TamePair(o[i], o[j], a)
  }

  lemma TameTail(o: seq<nat>, a: nat, b: nat)
    requires AllPositive(o) && o != [] && Tame(o, a) && b <= a
    ensures AllPositive(o[1..]) && Tame(o[1..], b)
  {
    forall i, j | 0 <= i < j < |o[1..]| && o[1..][i] <= b
      ensures TamePair(o[1..][i], o[1..][j], b)
    {
      assert TamePair(o[i + 1], o[j + 1], a);
    }
  }

  // ---------------------------------------------------------------- sums of present coins

  lemma {:induction false} OneCoin(o: seq<nat>, t: seq<nat>, i: nat)
    requires |o| == |t| && i < |o| && t[i] > 0
    ensures o[i] <= Dot(o, t)
    decreases |o|
  {
    if i == 0 {
      MulMono(1, t[0], o[0]);
    } else {
      OneCoin(o[1..], t[1..], i - 1);
      assert o[0] * t[0] >= 0;
    }
  }

  lemma {:induction false} TwoCoins(o: seq<nat>, t: seq<nat>, i: nat, j: nat)
    requires |o| == |t| && i < j < |o| && t[i] > 0 && t[j] > 0
    ensures o[i] + o[j] <= Dot(o, t)
    decreases |o|
  {
    if i == 0 {
      MulMono(1, t[0], o[0]);
      OneCoin(o[1..], t[1..], j - 1);
    } else {
      TwoCoins(o[1..], t[1..], i - 1, j - 1);
      assert o[0] * t[0] >= 0;
    }
  }

  predicate Divides(g: nat, n: nat)
    requires g > 0
  {
    n % g == 0
  }

  lemma DividesItself(g: nat)
    requires g > 0
    ensures Divides(g, g)
  {
    WholeMultiple(1, g);
  }

  lemma DividesTimes(g: nat, n: nat, k: nat)
    requires g > 0 && Divides(g, n)
    ensures Divides(g, n * k)
  {
    MultipleOfNext(k, n, g);
    WholeMultiple(k * (n / g), g);
  }

  lemma WholeMultiple(q: nat, g: nat)
    requires g > 0
    ensures (q * g) % g == 0
  {
    QuotientIs(q * g, g, q, 0);
    QuotientFits(q * g, g);
  }

  lemma DividesSum(g: nat, a: nat, b: nat)
    requires g > 0 && Divides(g, a) && Divides(g, b)
    ensures Divides(g, a + b)
  {
    var p := Factor(g, a);
    var q := Factor(g, b);
    FactorsAdd(g, p, q);
    WholeMultiple(p + q, g);
  }

  lemma DividesDifference(g: nat, a: nat, b: nat)
    requires g > 0 && Divides(g, a) && Divides(g, b) && b <= a
    ensures Divides(g, a - b)
  {
    var p := Factor(g, a);
    var q := Factor(g, b);
    MulOrder(p, q, g);
    Subtracted(p, q, g);
    WholeMultiple(p - q, g);
  }

  lemma Factor(g: nat, a: nat) returns (p: nat)
    requires g > 0 && Divides(g, a)
    ensures a == p * g
  {
    p := a / g;
  }

  lemma FactorsAdd(g: nat, p: nat, q: nat)
    ensures p * g + q * g == (p + q) * g
  {}

  lemma MulOrder(p: nat, q: nat, g: nat)
    requires g > 0 && q * g <= p * g
    ensures q <= p
  {
    if q > p {
      MulMono(p + 1, q, g);
      OneMore(p, g);
    }
  }

  lemma {:induction false} DividesDot(o: seq<nat>, t: seq<nat>, g: nat)
    requires |o| == |t| && g > 0 && forall i | 0 <= i < |o| && t[i] > 0 :: Divides(g, o[i])
    ensures Divides(g, Dot(o, t))
    decreases |o|
  {
    if o != [] {
      forall i | 0 <= i < |o[1..]| && t[1..][i] > 0 ensures Divides(g, o[1..][i]) {
        assert Divides(g, o[i + 1]);
      }
      DividesDot(o[1..], t[1..], g);
      if t[0] > 0 {
        DividesTimes(g, o[0], t[0]);
        DividesSum(g, o[0] * t[0], Dot(o[1..], t[1..]));
      } else {
        TimesZero(o[0]);
      }
    }
  }

  // ---------------------------------------------------------------- paying with a chain

  /** The nominals of which t has any divide one another. */
  predicate PresentChain(o: seq<nat>, t: seq<nat>)
    requires AllPositive(o) && |t| == |o|
  {
    forall i, j | 0 <= i < j < |o| && t[i] > 0 && t[j] > 0 :: Divides(o[j], o[i])
  }

  /** What is a multiple of all nominals present is paid exactly. */
  lemma {:induction false} ChainPays(o: seq<nat>, t: seq<nat>, m: nat, s: seq<nat>)
    requires AllPositive(o) && |t| == |o| && PresentChain(o, t) && m <= Dot(o, t)
    requires forall i | 0 <= i < |o| && t[i] > 0 :: Divides(o[i], m)
    requires s == Greedy(o, t, m)
    ensures Dot(o, s) == m
    decreases |o|
  {
    if o != [] {
      var k, b := HeadShare(o, t, m);
      var s1 := Greedy(o[1..], t[1..], b);
      forall i | 0 <= i < |o[1..]| && t[1..][i] > 0 ensures Divides(o[1..][i], b) {
        assert Divides(o[i + 1], m);
        if t[0] > 0 {
          assert Divides(o[i + 1], o[0]);
          DividesTimes(o[i + 1], o[0], k);
          DividesDifference(o[i + 1], m, o[0] * k);
        } else {
          TimesZero(o[0]);
        }
      }
      TailChain(o, t);
      ChainPays(o[1..], t[1..], b, s1);
      GreedyHead(o, t, m, k, b, s1);
    }
  }

  lemma TailChain(o: seq<nat>, t: seq<nat>)
    requires AllPositive(o) && |t| == |o| && PresentChain(o, t) && o != []
    ensures AllPositive(o[1..]) && PresentChain(o[1..], t[1..])
  {
    forall i, j | 0 <= i < j < |o[1..]| && t[1..][i] > 0 && t[1..][j] > 0 ensures Divides(o[1..][j], o[1..][i]) {
      assert Divides(o[j + 1], o[i + 1]);
    }
  }

  lemma HeadShare(o: seq<nat>, t: seq<nat>, m: nat) returns (k: nat, b: nat)
    requires AllPositive(o) && |t| == |o| && o != [] && m <= Dot(o, t)
    requires t[0] > 0 ==> Divides(o[0], m)
    ensures k == Min(t[0], m / o[0]) && k * o[0] + b == m && o[0] * k + b == m && b <= Dot(o[1..], t[1..])
  {
    var n, rest := o[0], Dot(o[1..], t[1..]);
    if t[0] > 0 {
      var q1;
      assert m == (m / n) * n;
      k, b, q1 := NextMultiple(n, 0, t[0], m / n, m, rest);
    } else {
      TimesZero(n);
      k, b := 0, m;
    }
  }

  // ---------------------------------------------------------------- coins that make up the larger one

  /** The coins of t whose nominals divide n. */
  function Good(o: seq<nat>, t: seq<nat>, n: nat): (r: seq<nat>)
    requires AllPositive(o) && |t| == |o|
    ensures AtMost(r, t)
  {
    seq(|t|, i requires 0 <= i < |t| => if Divides(o[i], n) then t[i] else 0)
  }

  /** A nominal n, the nominals o below it, and coins t of those, worth at least n and at most
      the amount a for which the whole system is tame. */
  predicate Below(n: nat, o: seq<nat>, t: seq<nat>, a: nat) {
    && n > 0 && AllPositive(o) && Descending(o) && |t| == |o|
    && (forall i | 0 <= i < |o| :: o[i] < n)
    && Tame(o, a) && (forall i | 0 <= i < |o| :: TamePair(n, o[i], a))
    && n <= Dot(o, t) <= a
  }

  /** A smaller nominal that divides n divides every nominal between them. */
  lemma GoodDivides(n: nat, o: seq<nat>, t: seq<nat>, a: nat, i: nat, j: nat)
    requires Below(n, o, t, a) && i < j < |o| && Divides(o[j], n)
    ensures Divides(o[j], o[i])
  {
    assert TamePair(o[i], o[j], a) && n == (n / o[j]) * o[j];
    NextIsLeast(o[i], o[j], n / o[j]);
  }

  /** Of two nominals that are both present, the smaller divides the larger. */
  lemma PresentDivides(n: nat, o: seq<nat>, t: seq<nat>, a: nat, i: nat, j: nat)
    requires Below(n, o, t, a) && i < j < |o| && t[i] > 0 && t[j] > 0
    ensures Divides(o[j], o[i])
  {
    assert TamePair(o[i], o[j], a);
    TwoCoins(o, t, i, j);
    NextIsNear(o[i], o[j]);
  }

  lemma DividesThrough(g: nat, m: nat, n: nat)
    requires g > 0 && m > 0 && Divides(g, m) && Divides(m, n)
    ensures Divides(g, n)
  {
    DividesTimes(g, m, n / m);
    assert n == (n / m) * m;
  }

  /** A present nominal that divides n divides every present one that does not. */
  lemma GoodDividesBad(n: nat, o: seq<nat>, t: seq<nat>, a: nat, i: nat, j: nat)
    requires Below(n, o, t, a) && i < |o| && j < |o| && t[i] > 0 && t[j] > 0
    requires !Divides(o[i], n) && Divides(o[j], n)
    ensures Divides(o[j], o[i])
  {
    if i < j {
      GoodDivides(n, o, t, a, i, j);
    } else {
      assert i != j;
      PresentDivides(n, o, t, a, j, i);
      DividesThrough(o[i], o[j], n);
    }
  }

  /** The last present nominal divides the worth of all coins whose nominals do not divide n. */
  lemma LastDividesAll(n: nat, o: seq<nat>, t: seq<nat>, a: nat, bad: seq<nat>, i: nat)
    requires Below(n, o, t, a) && AtMost(bad, t)
    requires i < |o| && bad[i] > 0 && forall k | i < k < |o| :: bad[k] == 0
    ensures Divides(o[i], Dot(o, bad))
  {
    forall k | 0 <= k < |o| && bad[k] > 0 ensures Divides(o[i], o[k]) {
      if k < i {
        PresentDivides(n, o, t, a, k, i);
      } else {
        assert k == i;
        DividesItself(o[i]);
      }
    }
    DividesDot(o, bad, o[i]);
  }

  /** A multiple of m that is at most a, when the next one above n is more than a. */
  lemma AtMostHead(n: nat, m: nat, x: nat, a: nat)
    requires m > 0 && Divides(m, x) && x <= a && NextMultipleAbove(n, m) > a
    ensures x <= n && a < n + m
  {
    NextIsNear(n, m);
    if x > n {
      assert x == (x / m) * m;
      NextIsLeast(n, m, x / m);
    }
  }

  /** The coins whose nominals do not divide n are worth at most n. */
  lemma BadIsSmall(n: nat, o: seq<nat>, t: seq<nat>, a: nat, bad: seq<nat>)
    requires Below(n, o, t, a) && bad == Minus(t, Good(o, t, n))
    ensures Dot(o, bad) <= n
  {
    if Dot(o, bad) > 0 {
      var i := LastPresent(o, bad);
      LastDividesAll(n, o, t, a, bad, i);
      MinusSums(o, t, Good(o, t, n));
      assert !Divides(o[i], n) && TamePair(n, o[i], a);
      AtMostHead(n, o[i], Dot(o, bad), a);
    }
  }

  lemma {:induction false} LastPresent(o: seq<nat>, t: seq<nat>) returns (i: nat)
    requires AllPositive(o) && |t| == |o| && Dot(o, t) > 0
    ensures i < |o| && t[i] > 0 && forall k | i < k < |o| :: t[k] == 0
    decreases |o|
  {
    i := 0;
    if Dot(o[1..], t[1..]) > 0 {
      var j := LastPresent(o[1..], t[1..]);
      i := j + 1;
      forall k | i < k < |o| ensures t[k] == 0 {
        assert t[1..][k - 1] == 0;
      }
    } else {
      NothingWorth(o[1..], t[1..]);
      forall k | 0 < k < |o| ensures t[k] == 0 {
        assert t[1..][k - 1] == 0;
      }
      TimesZero(o[0]);
    }
  }

  lemma {:induction false} NothingWorth(o: seq<nat>, t: seq<nat>)
    requires AllPositive(o) && |t| == |o| && Dot(o, t) == 0
    ensures forall i | 0 <= i < |t| :: t[i] == 0
    decreases |o|
  {
    if o != [] {
      if t[0] > 0 {
        MulMono(1, t[0], o[0]);
      }
      NothingWorth(o[1..], t[1..]);
      forall i | 0 <= i < |t| ensures t[i] == 0 {
        if i > 0 {
          assert t[i] == t[1..][i - 1];
        }
      }
    }
  }

  /** Coins of t worth exactly d times n: those that do not divide it, and as much of the others
      as is missing. */
  lemma FreedOf(n: nat, o: seq<nat>, t: seq<nat>, a: nat, d: nat) returns (s: seq<nat>)
    requires Below(n, o, t, a) && d >= 1 && d * n <= Dot(o, t)
    ensures AtMost(s, t) && Dot(o, s) == d * n
  {
    var good := Good(o, t, n);
    var bad := Minus(t, good);
    MinusSums(o, t, good);
    BadIsSmall(n, o, t, a, bad);
    MulMono(1, d, n);
    var m := d * n - Dot(o, bad);
    var g := Greedy(o, good, m);
    GoodChain(n, o, t, a);
    forall i | 0 <= i < |o| && good[i] > 0 ensures Divides(o[i], m) {
      MissingDivides(n, o, t, a, d, bad, i);
    }
    ChainPays(o, good, m, g);
    s := Plus(bad, g);
    PlusSums(o, bad, g);
    forall i | 0 <= i < |t| ensures s[i] <= t[i] {
      assert bad[i] + good[i] == t[i] && g[i] <= good[i];
    }
  }

  lemma GoodChain(n: nat, o: seq<nat>, t: seq<nat>, a: nat)
    requires Below(n, o, t, a)
    ensures PresentChain(o, Good(o, t, n))
  {
    var good := Good(o, t, n);
    forall i, j | 0 <= i < j < |o| && good[i] > 0 && good[j] > 0 ensures Divides(o[j], o[i]) {
      GoodDivides(n, o, t, a, i, j);
    }
  }

  lemma MissingDivides(n: nat, o: seq<nat>, t: seq<nat>, a: nat, d: nat, bad: seq<nat>, i: nat)
    requires Below(n, o, t, a) && bad == Minus(t, Good(o, t, n)) && i < |o| && Good(o, t, n)[i] > 0
    requires d * n >= Dot(o, bad)
    ensures Divides(o[i], d * n - Dot(o, bad))
  {
    forall k | 0 <= k < |o| && bad[k] > 0 ensures Divides(o[i], o[k]) {
      GoodDividesBad(n, o, t, a, k, i);
    }
    DividesDot(o, bad, o[i]);
    DividesTimes(o[i], n, d);
    DividesDifference(o[i], d * n, Dot(o, bad));
  }

  function Plus(s: seq<nat>, t: seq<nat>): (u: seq<nat>)
    requires |s| == |t|
    ensures |u| == |s|
  {
    seq(|s|, i requires 0 <= i < |s| => s[i] + t[i])
  }

  lemma {:induction false} PlusSums(o: seq<nat>, s: seq<nat>, t: seq<nat>)
    requires |o| == |s| == |t|
    ensures Dot(o, Plus(s, t)) == Dot(o, s) + Dot(o, t)
    decreases |o|
  {
    if o != [] {
      PlusSums(o[1..], s[1..], t[1..]);
      assert Plus(s, t)[1..] == Plus(s[1..], t[1..]);
      Distributes(o[0], s[0], t[0]);
    }
  }

  // ---------------------------------------------------------------- exactly when

  lemma BelowHead(o: seq<nat>, a: nat)
    requires AllPositive(o) && Descending(o) && Tame(o, a) && o != [] && o[0] <= a
    ensures forall i | 0 <= i < |o[1..]| :: o[1..][i] < o[0] && TamePair(o[0], o[1..][i], a)
  {
    forall i | 0 <= i < |o[1..]| ensures o[1..][i] < o[0] && TamePair(o[0], o[1..][i], a) {
      assert o[1..][i] == o[i + 1] && TamePair(o[0], o[i + 1], a);
    }
  }

  /** In a tame system, the greedy pass pays every amount that some coins pay. */
  lemma {:induction false} TamePays(o: seq<nat>, c: seq<nat>, t: seq<nat>, a: nat, g: seq<nat>)
    requires AllPositive(o) && Descending(o) && Tame(o, a)
    requires |c| == |o| && AtMost(t, c) && Dot(o, t) == a && g == Greedy(o, c, a)
    ensures Dot(o, g) == a
    decreases |o|
  {
    if o != [] {
      var g0, b, u := TameExchange(o, c, t, a);
      TameTail(o, a, b);
      var g1 := Greedy(o[1..], c[1..], b);
      TamePays(o[1..], c[1..], u, b, g1);
      GreedyHead(o, c, a, g0, b, g1);
    }
  }

  /** The payment t with the greedy number of its largest nominal, and u in place of the rest. */
  lemma TameExchange(o: seq<nat>, c: seq<nat>, t: seq<nat>, a: nat) returns (g0: nat, b: nat, u: seq<nat>)
    requires AllPositive(o) && Descending(o) && Tame(o, a) && o != []
    requires |c| == |o| && AtMost(t, c) && Dot(o, t) == a
    ensures g0 == Min(c[0], a / o[0]) && g0 * o[0] + b == a
    ensures AtMost(u, c[1..]) && Dot(o[1..], u) == b
  {
    var rest, t1, n := o[1..], t[1..], o[0];
    var d;
    g0, b, d := FirstShare(n, c[0], t[0], a, Dot(rest, t1));
    if d == 0 {
      u := t1;
    } else {
      u := WithoutFreed(o, t1, a, d);
    }
  }

  /** Coins of the smaller nominals less d of the largest. */
  lemma WithoutFreed(o: seq<nat>, t: seq<nat>, a: nat, d: nat) returns (u: seq<nat>)
    requires AllPositive(o) && Descending(o) && Tame(o, a) && o != [] && |t| == |o| - 1
    requires d >= 1 && d * o[0] <= Dot(o[1..], t) <= a
    ensures AtMost(u, t) && Dot(o[1..], u) + d * o[0] == Dot(o[1..], t)
  {
    MulMono(1, d, o[0]);
    TameTail(o, a, a);
    BelowHead(o, a);
    var s := FreedOf(o[0], o[1..], t, a, d);
    MinusSums(o[1..], t, s);
    u := Minus(t, s);
  }

  /** With these nominals the greedy answer of Contains is right for every stock of coins. */
  ghost predicate Complete(o: seq<nat>) {
    forall v: Coins, a: nat | Lists(o, v) && a < AMOUNT_LIMIT ::
      Spend(v, Ordered(o), a).Paid? <==> Payable(v, a)
  }

  /** For all positive nominals, however large: the greedy answer is right for every stock and
      every amount if and only if, of any two nominals, the smaller divides the larger or its
      next multiple above the larger is no longer a 32-bit amount. */
  lemma CompleteIffTame(o: seq<nat>)
    requires AllPositive(o) && Descending(o)
    ensures Complete(o) <==> Tame(o, AMOUNT_LIMIT - 1)
  {
    if Tame(o, AMOUNT_LIMIT - 1) {
      forall v: Coins, a: nat | Lists(o, v) && a < AMOUNT_LIMIT
        ensures Spend(v, Ordered(o), a).Paid? <==> Payable(v, a)
      {
        TameBelow(o, AMOUNT_LIMIT - 1, a);
        TamePaysPayable(o, v, a);
      }
    } else {
      var i, j :| 0 <= i < j < |o| && o[i] <= AMOUNT_LIMIT - 1
                  && !TamePair(o[i], o[j], AMOUNT_LIMIT - 1);
      NotTameIsIncomplete(o, i, j);
    }
  }

  lemma NotTameIsIncomplete(o: seq<nat>, i: nat, j: nat)
    requires AllPositive(o) && Descending(o) && i < j < |o| && !TamePair(o[i], o[j], AMOUNT_LIMIT - 1)
    ensures !Complete(o)
  {
    var q := o[i] / o[j];
    var v, a := Trap(o, o[i], o[j], q), NextMultipleAbove(o[i], o[j]);
    TrapIsRefused(o, i, j, v, q, a);
  }

  /** For one amount, it is enough that the system is tame up to that amount. */
  lemma TamePaysPayable(o: seq<nat>, v: Coins, a: nat)
    requires AllPositive(o) && Descending(o) && Tame(o, a) && Lists(o, v)
    ensures Spend(v, Ordered(o), a).Paid? <==> Payable(v, a)
  {
    OrderIsLongEnough(o, v);
    RescanIsSinglePass(v, o, a);
    var r, c := Pass(v, o, a), Along(o, v);
    var g := Greedy(o, c, a);
    PassIsGreedy(v, o, a, r, g);
    if Payable(v, a) {
      var t :| Payment(v, t, a);
      PaymentAlong(o, v, t, a);
      TamePays(o, c, Along(o, t), a, g);
    }
    if Spend(v, Ordered(o), a).Paid? {
      PaidIsPayable(v, Ordered(o), a);
    }
  }

  lemma TameBelow(o: seq<nat>, a: nat, b: nat)
    requires AllPositive(o) && Tame(o, a) && b <= a
    ensures Tame(o, b)
  {}

  /** When the two largest nominals together are still an amount, that is the chain: each nominal
      divides the next larger one. */
  lemma CompleteIffChain(o: seq<nat>)
    requires AllPositive(o) && Descending(o) && (|o| > 1 ==> o[0] + o[1] <= AMOUNT_LIMIT)
    ensures Complete(o) <==> Chain(o)
  {
    CompleteIffTame(o);
    if Chain(o) {
      ChainIsTame(o, AMOUNT_LIMIT - 1);
    } else {
      NotChainIsNotTame(o, AMOUNT_LIMIT - 1);
    }
  }

  lemma ChainIsTame(o: seq<nat>, a: nat)
    requires Chain(o)
    ensures Tame(o, a)
  {
    forall i, j | 0 <= i < j < |o| ensures TamePair(o[i], o[j], a) {
      ChainDivides(o, i, j);
    }
  }

  lemma NotChainIsNotTame(o: seq<nat>, a: nat)
    requires AllPositive(o) && Descending(o) && !Chain(o) && (|o| > 1 ==> o[0] + o[1] <= a + 1)
    ensures !Tame(o, a)
  {
    var i :| 0 <= i < |o| - 1 && o[i] % o[i + 1] != 0;
    TrapArithmetic(o[i], o[i + 1], o[i] / o[i + 1], NextMultipleAbove(o[i], o[i + 1]));
    assert i > 0 ==> o[0] > o[i] && o[1] >= o[i];
    assert !TamePair(o[i], o[i + 1], a);
  }

  lemma {:induction false} ChainDivides(o: seq<nat>, i: nat, j: nat)
    requires Chain(o) && i < j < |o|
    ensures o[i] % o[j] == 0
    decreases j - i
  {
    if j > i + 1 {
      ChainDivides(o, i + 1, j);
      DividesThrough(o[j], o[i + 1], o[i]);
    }
  }
}
