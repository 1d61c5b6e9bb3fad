/** What the greedy order can and cannot pay: with nominals that divide one another it pays
    whatever can be paid, with the fewest coins; with others it does not. */
module CurrencyGreedy {
  import opened Currency
  import opened CurrencyPass
  import CurrencyAgreement

  /** A sub-multiset of the coins that sums to an amount. */
  ghost predicate Payment(v: Coins, t: Coins, a: nat) {
    && t.Keys == v.Keys
    && (forall n | n in v :: t[n] <= v[n])
    && TotalOf(t) == a
  }

  ghost predicate Payable(v: Coins, a: nat) {
    exists t: Coins :: Payment(v, t, a)
  }

  ghost function CoinsOf(v: Coins): (r: nat) {
    if v == map[] then 0
    else
      var n :| n in v;
      v[n] + CoinsOf(v - {n})
  }

  lemma {:induction false} CoinsSplit(v: Coins, n: nat)
    requires n in v
    ensures CoinsOf(v) == v[n] + CoinsOf(v - {n})
    decreases |v|
  {
    var m: nat :| m in v && CoinsOf(v) == v[m] + CoinsOf(v - {m});
    if m != n {
      CoinsSplit(v - {m}, n);
      CoinsSplit(v - {n}, m);
      assert v - {m} - {n} == v - {n} - {m};
    }
  }

  // ---------------------------------------------------------------- payments along an order

  /** The nominals of a group, largest first. */
  predicate Descending(o: seq<nat>) {
    forall i, j | 0 <= i < j < |o| :: o[i] > o[j]
  }

  /** Each nominal divides the next larger one. */
  predicate Chain(o: seq<nat>) {
    AllPositive(o) && Descending(o) && forall i | 0 <= i < |o| - 1 :: o[i] % o[i + 1] == 0
  }

  function Dot(o: seq<nat>, t: seq<nat>): (r: nat)
    requires |o| == |t|
  {
    if o == [] then 0 else o[0] * t[0] + Dot(o[1..], t[1..])
  }

  function Count(t: seq<nat>): (r: nat) {
    if t == [] then 0 else t[0] + Count(t[1..])
  }

  predicate AtMost(s: seq<nat>, t: seq<nat>) {
    |s| == |t| && forall i | 0 <= i < |s| :: s[i] <= t[i]
  }

  /** How many of each the single pass takes. */
  function Greedy(o: seq<nat>, c: seq<nat>, a: nat): (t: seq<nat>)
    requires |o| == |c| && AllPositive(o)
    ensures AtMost(t, c)
  {
    if o == [] then []
    else
      var k := Min(c[0], a / o[0]);
      GreedyFits(o[0], c[0], a);
      [k] + Greedy(o[1..], c[1..], a - k * o[0])
  }

  lemma GreedyFits(n: nat, c: nat, a: nat)
    requires n > 0
    ensures Min(c, a / n) * n <= a
  {
    MulMono(Min(c, a / n), a / n, n);
    QuotientFits(a, n);
  }

  /** The first step of the greedy payment, with its parts named. */
  lemma GreedyHead(o: seq<nat>, c: seq<nat>, a: nat, k: nat, b: nat, g: seq<nat>)
    requires |o| == |c| && AllPositive(o) && o != []
    requires k == Min(c[0], a / o[0]) && k * o[0] + b == a && g == Greedy(o[1..], c[1..], b)
    ensures Greedy(o, c, a) == [k] + g
    ensures Dot(o, Greedy(o, c, a)) == o[0] * k + Dot(o[1..], g)
    ensures Count(Greedy(o, c, a)) == k + Count(g)
  {
    GreedyFits(o[0], c[0], a);
    assert ([k] + g)[1..] == g;
  }

  lemma ChainTail(o: seq<nat>)
    requires Chain(o) && o != []
    ensures Chain(o[1..])
    ensures |o| > 1 ==> o[0] % o[1] == 0 && o[1..][0] == o[1]
  {
    forall i | 0 <= i < |o[1..]| - 1 ensures o[1..][i] % o[1..][i + 1] == 0 {
      assert o[i + 1] % o[i + 2] == 0;
    }
  }

  /** A multiple of the largest nominal that the coins can cover is paid exactly. */
  lemma {:induction false} MultipleIsExact(o: seq<nat>, t: seq<nat>, q: nat, a: nat, g: seq<nat>)
    requires Chain(o) && |t| == |o| && a <= Dot(o, t) && g == Greedy(o, t, a)
    requires o != [] ==> a == q * o[0]
    ensures Dot(o, g) == a
    decreases |o|
  {
    if o != [] {
      ChainTail(o);
      var k, b, q1 := NextMultiple(o[0], if |o| > 1 then o[1] else 0, t[0], q, a, Dot(o[1..], t[1..]));
      var g1 := Greedy(o[1..], t[1..], b);
      MultipleIsExact(o[1..], t[1..], q1, b, g1);
      GreedyHead(o, t, a, k, b, g1);
    }
  }

  /** After its largest nominal, the rest is a multiple of the next, and still covered. */
  lemma NextMultiple(n: nat, m: nat, t0: nat, q: nat, a: nat, rest: nat) returns (k: nat, b: nat, q1: nat)
    requires n > 0 && a == q * n && a <= n * t0 + rest && (m > 0 ==> n % m == 0)
    ensures k == Min(t0, a / n) && k * n + b == a && b <= rest
    ensures m > 0 ==> b == q1 * m
  {
    QuotientIs(a, n, q, 0);
    k := Min(t0, q);
    Subtracted(q, k, n);
    b := (q - k) * n;
    q1 := 0;
    RestIsCovered(n, t0, k, q, a, rest);
    if m > 0 {
      MultipleOfNext(q - k, n, m);
      q1 := (q - k) * (n / m);
    }
  }

  lemma Subtracted(q: nat, k: nat, n: nat)
    requires k <= q
    ensures q * n - k * n == (q - k) * n
  {}

  lemma MultipleOfNext(r: nat, n: nat, m: nat)
    requires m > 0 && n % m == 0
    ensures r * n == (r * (n / m)) * m
  {
    assert n == (n / m) * m;
    TimesAssociates(r, n / m, m);
  }

  lemma TimesAssociates(a: nat, b: nat, c: nat)
    ensures a * (b * c) == (a * b) * c
  {}

  lemma RestIsCovered(n: nat, t0: nat, k: nat, q: nat, a: nat, rest: nat)
    requires a == q * n && a <= n * t0 + rest && k == Min(t0, q)
    ensures a - k * n <= rest
  {
    if k == q {
    } else {
      assert k == t0;
    }
  }

  lemma {:induction false} DotBound(o: seq<nat>, s: seq<nat>, n: nat)
    requires |o| == |s| && forall i | 0 <= i < |o| :: o[i] <= n
    ensures Dot(o, s) <= n * Count(s)
  {
    if o != [] {
      DotBound(o[1..], s[1..], n);
      MulMono(o[0], n, s[0]);
      Distributes(n, s[0], Count(s[1..]));
    }
  }

  lemma Distributes(n: nat, a: nat, b: nat)
    ensures n * (a + b) == n * a + n * b
  {}

  /** Payments that contain one another, coin by coin. */
  function Minus(t: seq<nat>, s: seq<nat>): (u: seq<nat>)
    requires AtMost(s, t)
    ensures AtMost(u, t)
  {
    seq(|t|, i requires 0 <= i < |t| => t[i] - s[i])
  }

  lemma {:induction false} MinusSums(o: seq<nat>, t: seq<nat>, s: seq<nat>)
    requires |o| == |t| && AtMost(s, t)
    ensures Dot(o, Minus(t, s)) + Dot(o, s) == Dot(o, t)
    ensures Count(Minus(t, s)) + Count(s) == Count(t)
    decreases |o|
  {
    if o != [] {
      MinusSums(o[1..], t[1..], s[1..]);
      assert Minus(t, s)[1..] == Minus(t[1..], s[1..]);
      Distributes(o[0], t[0] - s[0], s[0]);
    }
  }

  /** Exchange: any payment can be turned into the greedy one without using more coins. */
  lemma {:induction false} GreedyIsOptimal(o: seq<nat>, c: seq<nat>, t: seq<nat>, a: nat, g: seq<nat>)
    requires Chain(o) && |c| == |o| && AtMost(t, c) && Dot(o, t) == a && g == Greedy(o, c, a)
    ensures Dot(o, g) == a && Count(g) <= Count(t)
    decreases |o|
  {
    if o != [] {
      var g0, b, u := Exchanged(o, c, t, a);
      var g1 := Greedy(o[1..], c[1..], b);
      ChainTail(o);
      GreedyIsOptimal(o[1..], c[1..], u, b, g1);
      GreedyHead(o, c, a, g0, b, g1);
    }
  }

  /** The payment t with the greedy number of its largest nominal, and u in place of the rest. */
  lemma Exchanged(o: seq<nat>, c: seq<nat>, t: seq<nat>, a: nat) returns (g0: nat, b: nat, u: seq<nat>)
    requires Chain(o) && o != [] && |c| == |o| && AtMost(t, c) && Dot(o, t) == a
    ensures g0 == Min(c[0], a / o[0]) && g0 * o[0] + b == a
    ensures AtMost(u, c[1..]) && Dot(o[1..], u) == b && g0 + Count(u) <= Count(t)
  {
    ChainTail(o);
    var rest, t1 := o[1..], t[1..];
    var d;
    g0, b, d := FirstShare(o[0], c[0], t[0], a, Dot(rest, t1));
    var s := Freed(rest, t1, o[0], d);
    MinusSums(rest, t1, s);
    u := Minus(t1, s);
  }

  /** The greedy number of the largest nominal is d more than t0, worth d of it. */
  lemma FirstShare(n: nat, c0: nat, t0: nat, a: nat, rest: nat) returns (g0: nat, b: nat, d: nat)
    requires n > 0 && a == n * t0 + rest && t0 <= c0
    ensures g0 == Min(c0, a / n) && g0 * n + b == a && t0 + d == g0 && b + d * n == rest
  {
    g0 := Min(c0, a / n);
    GreedyFits(n, c0, a);
    PaidAtMost(n, t0, a);
    b, d := a - g0 * n, g0 - t0;
    Subtracted(g0, t0, n);
  }

  lemma PaidAtMost(n: nat, k: nat, a: nat)
    requires n > 0 && n * k <= a
    ensures k <= a / n
  {
    QuotientFits(a, n);
    if k > a / n {
      MulMono(a / n + 1, k, n);
    }
  }

  /** Coins of smaller nominals worth d of the larger n, and at least d of them. */
  lemma Freed(o: seq<nat>, t: seq<nat>, n: nat, d: nat) returns (s: seq<nat>)
    requires Chain(o) && |t| == |o| && d * n <= Dot(o, t) && n > 0
    requires o != [] ==> n % o[0] == 0 && o[0] < n
    ensures AtMost(s, t) && Dot(o, s) == d * n && Count(s) >= d
  {
    var q := if o == [] then 0 else d * (n / o[0]);
    if o != [] {
      MultipleOfNext(d, n, o[0]);
    }
    s := Greedy(o, t, d * n);
    MultipleIsExact(o, t, q, d * n, s);
    DotBound(o, s, n);
    AtLeastAsMany(n, d, Count(s));
  }

  lemma AtLeastAsMany(n: nat, d: nat, k: nat)
    requires n > 0 && d * n <= n * k
    ensures d <= k
  {
    if k < d {
      MulMono(k + 1, d, n);
    }
  }

  // ---------------------------------------------------------------- groups along their order

  function Along(o: seq<nat>, v: Coins): (c: seq<nat>)
    ensures |c| == |o|
  {
    seq(|o|, i requires 0 <= i < |o| => Have(v, o[i]))
  }

  /** o lists the valid nominals of v, largest first. */
  ghost predicate Lists(o: seq<nat>, v: Coins) {
    Descending(o) && forall n :: n in o <==> n in v
  }

  lemma OrderLists(o: seq<nat>, v: Coins)
    requires IsOrder(o, v, ByNominal)
    ensures Lists(o, v)
  {
    forall i, j | 0 <= i < j < |o| ensures o[i] > o[j] {
      assert ByNominal(o[i], Have(v, o[i])) >= ByNominal(o[j], Have(v, o[j]));
    }
  }

  lemma ListsTail(o: seq<nat>, v: Coins)
    requires Lists(o, v) && o != []
    ensures Lists(o[1..], v - {o[0]}) && Along(o[1..], v - {o[0]}) == Along(o, v)[1..]
  {
    forall n ensures n in o[1..] <==> n in v - {o[0]} {
      TailHolds(o, n);
    }
    TailAlong(o, v, v - {o[0]});
  }

  lemma TailHolds(o: seq<nat>, n: nat)
    requires Descending(o) && o != []
    ensures n in o[1..] <==> n in o && n != o[0]
  {
    NotInTail(o);
    assert o == [o[0]] + o[1..];
  }

  lemma {:induction false} TotalIsDot(o: seq<nat>, v: Coins)
    requires Lists(o, v)
    ensures TotalOf(v) == Dot(o, Along(o, v)) && CoinsOf(v) == Count(Along(o, v))
    decreases |o|
  {
    if o == [] {
      assert v == map[];
    } else {
      assert o[0] in o;
      TotalSplits(v, o[0]);
      CoinsSplit(v, o[0]);
      ListsTail(o, v);
      TotalIsDot(o[1..], v - {o[0]});
    }
  }

  /** left is v with g taken of the nominals in o. */
  ghost predicate Leaves(v: Coins, o: seq<nat>, g: seq<nat>, left: Coins) {
    && |g| == |o|
    && left.Keys == v.Keys
    && (forall i | 0 <= i < |o| :: Have(left, o[i]) + g[i] == Have(v, o[i]))
    && (forall n | n !in o :: Have(left, n) == Have(v, n))
  }

  /** The pass and the greedy payment: coins left and taken, nominal by nominal. */
  lemma {:induction false} PassIsGreedy(v: Coins, o: seq<nat>, a: nat, r: Passed, g: seq<nat>)
    requires AllPositive(o) && Descending(o)
    requires r == Pass(v, o, a) && g == Greedy(o, Along(o, v), a)
    ensures r.rest + Dot(o, g) == a && Leaves(v, o, g, r.left)
    decreases |o|
  {
    if o != [] {
      var k, b, v1 := HeadOfPass(v, o, a);
      TailAlong(o, v, v1);
      var g1 := Greedy(o[1..], Along(o[1..], v1), b);
      PassIsGreedy(v1, o[1..], b, r, g1);
      GreedyHead(o, Along(o, v), a, k, b, g1);
      LeavesGrows(v, o, k, v1, g1, r.left);
    }
  }

  lemma HeadOfPass(v: Coins, o: seq<nat>, a: nat) returns (k: nat, b: nat, v1: Coins)
    requires AllPositive(o) && o != []
    ensures k == Min(Along(o, v)[0], a / o[0]) && k * o[0] + b == a && k <= Have(v, o[0])
    ensures v1 == if k == 0 then v else v[o[0] := v[o[0]] - k]
    ensures Pass(v, o, a) == Pass(v1, o[1..], b)
  {
    k := TakenOf(v, o[0], a);
    TakenFits(v, o[0], a);
    b := a - k * o[0];
    v1 := if k == 0 then v else v[o[0] := v[o[0]] - k];
  }

  lemma LeavesGrows(v: Coins, o: seq<nat>, k: nat, v1: Coins, g1: seq<nat>, left: Coins)
    requires o != [] && Descending(o) && k <= Have(v, o[0])
    requires v1 == if k == 0 then v else v[o[0] := v[o[0]] - k]
    requires Leaves(v1, o[1..], g1, left)
    ensures Leaves(v, o, [k] + g1, left)
  {
    NotInTail(o);
    var g := [k] + g1;
    forall i | 0 <= i < |o| ensures Have(left, o[i]) + g[i] == Have(v, o[i]) {
      if i > 0 {
        assert o[1..][i - 1] == o[i] && g1[i - 1] == g[i] && o[0] > o[i];
      }
    }
    assert forall m | m !in o :: m !in o[1..] && m != o[0];
  }

  lemma NotInTail(o: seq<nat>)
    requires Descending(o) && o != []
    ensures o[0] !in o[1..] && (forall m | m in o[1..] :: m in o)
  {
    forall i | 0 <= i < |o[1..]| ensures o[1..][i] != o[0] && o[1..][i] in o {
      assert o[i + 1] == o[1..][i] && o[0] > o[i + 1];
    }
  }

  lemma TailAlong(o: seq<nat>, v: Coins, v1: Coins)
    requires o != [] && Descending(o) && forall n | n != o[0] :: Have(v1, n) == Have(v, n)
    ensures Along(o[1..], v1) == Along(o, v)[1..]
  {
    forall i | 0 <= i < |o| - 1 ensures Have(v1, o[1..][i]) == Have(v, o[i + 1]) {
      assert o[0] > o[i + 1];
    }
  }

  // ---------------------------------------------------------------- what a payment takes

  /** t and left together are v. */
  ghost predicate Together(t: Coins, left: Coins, v: Coins) {
    t.Keys == left.Keys == v.Keys && forall n | n in v :: v[n] == t[n] + left[n]
  }

  lemma {:induction false} TotalsAdd(t: Coins, left: Coins, v: Coins)
    requires Together(t, left, v)
    ensures TotalOf(t) + TotalOf(left) == TotalOf(v)
    decreases |v|
  {
    if v == map[] {
      assert t == map[] && left == map[];
    } else {
      var n: nat :| n in v;
      TotalsAdd(t - {n}, left - {n}, v - {n});
      TotalSplits(v, n);
      TotalSplits(left, n);
      TotalSplits(t, n);
      var a, b, c := t[n], left[n], v[n];
      Distributes(n, a, b);
      assert n * c == n * a + n * b;
    }
  }

  /** The coins that are gone. */
  function Gone(v: Coins, left: Coins): (t: Coins)
    requires left.Keys == v.Keys && forall n | n in v :: left[n] <= v[n]
    ensures Together(t, left, v)
  {
    map n | n in v :: v[n] - left[n]
  }

  /** Soundness, for every strategy: what is paid can be paid. */
  lemma PaidIsPayable(v: Coins, p: Plan, a: nat)
    requires Spend(v, p, a).Paid?
    ensures Payable(v, a)
  {
    SpendConserves(v, p, a);
    var left := Spend(v, p, a).left;
    TotalsAdd(Gone(v, left), left, v);
    assert Payment(v, Gone(v, left), a);
  }

  lemma PaymentAlong(o: seq<nat>, v: Coins, t: Coins, a: nat)
    requires Lists(o, v) && Payment(v, t, a)
    ensures AtMost(Along(o, t), Along(o, v)) && Dot(o, Along(o, t)) == a && Count(Along(o, t)) == CoinsOf(t)
  {
    assert Lists(o, t);
    TotalIsDot(o, t);
    forall i | 0 <= i < |o| ensures Along(o, t)[i] <= Along(o, v)[i] {
      assert o[i] in o;
    }
  }

  /** Completeness and minimality: with nominals that divide one another, the least-count
      order pays exactly the payable amounts, and with the fewest coins. */
  lemma LeastCountIsOptimal(v: Coins, o: seq<nat>, a: nat)
    requires IsOrder(o, v, ByNominal) && Chain(o)
    ensures Spend(v, Ordered(o), a).Paid? <==> Payable(v, a)
    ensures Spend(v, Ordered(o), a).Paid? ==>
              forall t | Payment(v, t, a) :: CoinsOf(v) <= CoinsOf(Spend(v, Ordered(o), a).left) + CoinsOf(t)
  {
    OrderLists(o, v);
    OrderIsLongEnough(o, v);
    RescanIsSinglePass(v, o, a);
    var r, c := Pass(v, o, a), Along(o, v);
    var g := Greedy(o, c, a);
    PassIsGreedy(v, o, a, r, g);
    forall t | Payment(v, t, a) ensures r.rest == 0 && CoinsOf(v) <= CoinsOf(r.left) + CoinsOf(t) {
      PaymentAlong(o, v, t, a);
      GreedyIsOptimal(o, c, Along(o, t), a, g);
      CoinsTaken(v, o, g, r.left);
    }
    if Spend(v, Ordered(o), a).Paid? {
      PaidIsPayable(v, Ordered(o), a);
    }
  }

  lemma CoinsTaken(v: Coins, o: seq<nat>, g: seq<nat>, left: Coins)
    requires Lists(o, v) && Leaves(v, o, g, left)
    ensures CoinsOf(v) == CoinsOf(left) + Count(g)
  {
    assert Lists(o, left);
    TotalIsDot(o, v);
    TotalIsDot(o, left);
    CountsAdd(Along(o, left), g, Along(o, v));
  }

  lemma {:induction false} CountsAdd(a: seq<nat>, b: seq<nat>, c: seq<nat>)
    requires |a| == |b| == |c| && forall i | 0 <= i < |a| :: a[i] + b[i] == c[i]
    ensures Count(a) + Count(b) == Count(c)
  {
    if a != [] {
      CountsAdd(a[1..], b[1..], c[1..]);
    }
  }

  lemma OrderIsLongEnough(o: seq<nat>, v: Coins)
    requires Distinct(o) && forall n :: n in o <==> n in v
    ensures |o| == |v|
  {
    CurrencyAgreement.OrderSize(o, v.Keys);
    assert |v| == |v.Keys|;
  }

  // ---------------------------------------------------------------- where the greedy order fails

  /** One of a larger nominal, and just enough of a smaller one that does not divide it. */
  function Trap(o: seq<nat>, big: nat, small: nat, q: nat): (v: Coins) {
    map n: nat | n in o :: if n == big then 1 else if n == small then q + 1 else 0
  }

  lemma {:induction false} ZeroTotal(v: Coins)
    requires forall n | n in v :: v[n] == 0
    ensures TotalOf(v) == 0
    decreases |v|
  {
    if v != map[] {
      var n: nat :| n in v;
      TotalSplits(v, n);
      var w := v - {n};
      ZeroTotal(w);
      TimesZero(n);
    }
  }

  lemma TimesZero(n: nat)
    ensures n * 0 == 0
  {}

  lemma TrapIsPayable(o: seq<nat>, big: nat, small: nat, q: nat)
    requires big in o && small in o && big != small
    ensures Payable(Trap(o, big, small, q), (q + 1) * small)
  {
    var v := Trap(o, big, small, q);
    var zero: Coins := map n: nat | n in o :: 0;
    var t := zero[small := q + 1];
    OneNominalTotal(zero, small, q + 1);
    assert t.Keys == v.Keys;
    assert Payment(v, t, (q + 1) * small);
  }

  lemma OneNominalTotal(zero: Coins, n: nat, c: nat)
    requires n in zero && forall m | m in zero :: zero[m] == 0
    ensures TotalOf(zero[n := c]) == c * n
  {
    ZeroTotal(zero);
    TotalUpdated(zero, n, c);
    TimesZero(n);
    Commutes(n, c);
  }

  lemma Commutes(a: nat, b: nat)
    ensures a * b == b * a
  {}

  /** Nominals of which there are none are passed over. */
  lemma {:induction false} PassAbsent(v: Coins, o: seq<nat>, a: nat)
    requires AllPositive(o) && forall n | n in o :: Have(v, n) == 0
    ensures Pass(v, o, a) == Passed(v, a)
    decreases |o|
  {
    if o != [] {
      assert o[0] in o;
      PassAbsent(v, o[1..], a);
    }
  }

  lemma {:induction false} PassSplits(v: Coins, o: seq<nat>, i: nat, a: nat)
    requires AllPositive(o) && i <= |o|
    ensures var r := Pass(v, o[..i], a); Pass(v, o, a) == Pass(r.left, o[i..], r.rest)
    decreases i
  {
    if i == 0 {
      assert o[..0] == [] && o[0..] == o;
    } else {
      var k, b, v1 := HeadOfPass(v, o, a);
      SplitTail(o, i);
      var k', b', v1' := HeadOfPass(v, o[..i], a);
      PassSplits(v1, o[1..], i - 1, b);
    }
  }

  lemma SplitTail(o: seq<nat>, i: nat)
    requires 0 < i <= |o|
    ensures o[..i] != [] && o[..i][0] == o[0] && o[..i][1..] == o[1..][..i - 1] && o[1..][i - 1..] == o[i..]
  {}

  /** The arithmetic of the trap: one of big is taken, and less than one of small remains. */
  lemma TrapArithmetic(big: nat, small: nat, q: nat, a: nat)
    requires 0 < small < big && big % small != 0 && q == big / small && a == (q + 1) * small
    ensures big < a < big + small
  {
    QuotientFits(big, small);
    OneMore(q, small);
  }

  lemma OneMore(q: nat, n: nat)
    ensures (q + 1) * n == q * n + n
  {}

  lemma OnlyTwoPresent(o: seq<nat>, i: nat, j: nat, q: nat)
    requires Descending(o) && i < j < |o|
    ensures var v := Trap(o, o[i], o[j], q);
            && Have(v, o[i]) == 1
            && (forall n | n in o[..i] :: Have(v, n) == 0)
            && (forall n | n in o[i..][1..] :: Have(v, n) == 0 || n == o[j])
  {
    assert o[i] in o;
    forall n | n in o[..i] ensures n > o[i] > o[j] {
      var k :| 0 <= k < i && o[k] == n;
    }
    forall n | n in o[i..][1..] ensures o[i] > n {
      var k :| 0 <= k < |o[i..][1..]| && o[i..][1..][k] == n;
      assert n == o[i + 1 + k];
    }
  }

  lemma TrapCatches(o: seq<nat>, i: nat, j: nat, v: Coins, q: nat, a: nat)
    requires AllPositive(o) && Descending(o) && i < j < |o| && o[i] % o[j] != 0
    requires q == o[i] / o[j] && a == (q + 1) * o[j] && v == Trap(o, o[i], o[j], q)
    ensures Pass(v, o, a).rest != 0
  {
    TrapArithmetic(o[i], o[j], q, a);
    OnlyTwoPresent(o, i, j, q);
    PassAbsent(v, o[..i], a);
    PassSplits(v, o, i, a);
    AfterTheLarger(o[i..], v, a);
  }

  /** One of the larger nominal is taken, and nothing fits after it. */
  lemma AfterTheLarger(t: seq<nat>, v: Coins, a: nat)
    requires t != [] && AllPositive(t) && Descending(t) && t[0] < a
    requires Have(v, t[0]) == 1 && forall n | n in t[1..] :: Have(v, n) == 0 || n > a - t[0]
    ensures Pass(v, t, a).rest != 0
  {
    CurrencyAgreement.QuotientAtLeast(a, t[0], 1);
    var k, b, v1 := HeadOfPass(v, t, a);
    assert k == 1;
    NotInTail(t);
    NothingToTake(v1, t[1..], b);
  }

  /** Nominals that are too large, or of which there are none, are passed over. */
  lemma {:induction false} NothingToTake(v: Coins, o: seq<nat>, b: nat)
    requires AllPositive(o) && forall n | n in o :: Have(v, n) == 0 || n > b
    ensures Pass(v, o, b) == Passed(v, b)
    decreases |o|
  {
    if o != [] {
      assert o[0] in o;
      NoneOfFirst(v, o[0], b);
      NothingToTake(v, o[1..], b);
    }
  }

  lemma TrapLists(o: seq<nat>, i: nat, j: nat, q: nat)
    requires Descending(o) && i < j < |o|
    ensures Lists(o, Trap(o, o[i], o[j], q))
  {}

  /** The trap's amount is payable, and refused. */
  lemma TrapIsRefused(o: seq<nat>, i: nat, j: nat, v: Coins, q: nat, a: nat)
    requires AllPositive(o) && Descending(o) && i < j < |o| && o[i] % o[j] != 0
    requires q == o[i] / o[j] && a == (q + 1) * o[j] && v == Trap(o, o[i], o[j], q)
    ensures Lists(o, v) && Payable(v, a) && o[i] < a < o[i] + o[j]
    ensures Spend(v, Ordered(o), a).Short?
  {
    TrapArithmetic(o[i], o[j], q, a);
    TrapLists(o, i, j, q);
    TrapIsPayable(o, o[i], o[j], q);
    TrapCatches(o, i, j, v, q, a);
    OrderIsLongEnough(o, v);
    RescanIsSinglePass(v, o, a);
  }

  /** One 5 and three 2s can pay 6, but are refused: the only order takes the 5 first. */
  lemma FiveAndTwosRefuseSix(v: Coins, o: seq<nat>)
    requires v == map[5 := 1, 2 := 3] && IsOrder(o, v, ByNominal)
    ensures Payable(v, 6) && Spend(v, Ordered(o), 6).Short?
  {
    OrderLists(o, v);
    OnlyOrder(o, 5, 2);
    assert Trap(o, 5, 2, 2) == v;
    TrapIsRefused(o, 0, 1, v, 2, 6);
  }

  lemma OnlyOrder(o: seq<nat>, n: nat, m: nat)
    requires Descending(o) && n > m && forall k :: k in o <==> k == n || k == m
    ensures o == [n, m]
  {
    var pair := [n, m];
    assert pair[0] == n && pair[1] == m;
    assert forall k :: k in pair <==> k == n || k == m;
    CurrencyAgreement.FallingIsUnique(o, pair, k => k);
  }
}
