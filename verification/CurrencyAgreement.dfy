/** When a dry run and the withdrawal after it agree, although sorting may order ties
    differently each time. */
module CurrencyAgreement {
  import opened Currency
  import opened CurrencyPass

  // ---------------------------------------------------------------- what matters of an order

  /** The order without the nominals of which there are none. */
  function Present(o: seq<nat>, v: Coins): (r: seq<nat>) {
    if o == [] then []
    else if Have(v, o[0]) > 0 then [o[0]] + Present(o[1..], v)
    else Present(o[1..], v)
  }

  /** Every nominal that w still has, v had. */
  ghost predicate Within(w: Coins, v: Coins) {
    forall n :: Have(w, n) > 0 ==> Have(v, n) > 0
  }

  lemma {:induction false} FirstFitOfPresent(w: Coins, v: Coins, o: seq<nat>, max: nat)
    requires Within(w, v)
    ensures FirstFit(w, o, max) == FirstFit(w, Present(o, v), max)
  {
    if o != [] {
      FirstFitOfPresent(w, v, o[1..], max);
      if Have(v, o[0]) > 0 {
        assert Present(o, v)[1..] == Present(o[1..], v);
      } else {
        assert Have(w, o[0]) == 0;
      }
    }
  }

  /** Two plans that cannot be told apart while spending from v. */
  ghost predicate SamePlan(p: Plan, q: Plan, v: Coins)
    decreases p
  {
    match p
    case Ordered(o) => q.Ordered? && |o| == |q.order| && Present(o, v) == Present(q.order, v)
    case Combined(below, seed, draws, p1, p2) =>
      && q.Combined? && q.below == below && q.seed == seed && q.draws == draws
      && SamePlan(p1, q.p1, v) && SamePlan(p2, q.p2, v)
  }

  lemma {:induction false} SamePick(w: Coins, v: Coins, p: Plan, q: Plan, max: nat)
    requires Within(w, v) && SamePlan(p, q, v)
    ensures var a, b := PickOne(w, p, max), PickOne(w, q, max);
            a.choice == b.choice && SamePlan(a.plan, b.plan, v)
    decreases p
  {
    match p
    case Ordered(o) =>
      FirstFitOfPresent(w, v, o, max);
      FirstFitOfPresent(w, v, q.order, max);
    case Combined(below, seed, draws, p1, p2) =>
      SamePick(w, v, p1, q.p1, max);
      SamePick(w, v, p2, q.p2, max);
  }

  lemma {:induction false} SameSpending(w: Coins, v: Coins, p: Plan, q: Plan, amount: nat)
    requires Within(w, v) && SamePlan(p, q, v)
    ensures Spend(w, p, amount) == Spend(w, q, amount)
    decreases amount
  {
    if amount > 0 {
      SamePick(w, v, p, q, amount);
      ChosenIsThere(w, p, amount);
      var a, b := PickOne(w, p, amount), PickOne(w, q, amount);
      if a.choice.Chosen? && a.choice.nominal != 0 {
        var n := a.choice.nominal;
        StillWithin(w, v, n);
        SameSpending(TakeOne(w, n), v, a.plan, b.plan, amount - n);
      }
    }
  }

  lemma StillWithin(w: Coins, v: Coins, n: nat)
    requires Within(w, v) && Have(w, n) > 0
    ensures Within(TakeOne(w, n), v)
  {
    forall m | Have(TakeOne(w, n), m) > 0 ensures Have(v, m) > 0 {
      assert Have(w, m) > 0;
    }
  }

  // ---------------------------------------------------------------- orders without ties are unique

  predicate Falling(o: seq<nat>, rank: nat -> nat) {
    forall i, j | 0 <= i < j < |o| :: rank(o[i]) > rank(o[j])
  }

  lemma {:induction false} FallingIsUnique(a: seq<nat>, b: seq<nat>, rank: nat -> nat)
    requires Falling(a, rank) && Falling(b, rank) && forall n :: n in a <==> n in b
    ensures a == b
    decreases |a|
  {
    if a == [] {
      assert forall i | 0 <= i < |b| :: b[i] in a;
    } else {
      assert a[0] in b && b[0] in a;
      HeadsAreEqual(a, b, rank);
      forall n ensures n in a[1..] <==> n in b[1..] {
        TailMembers(a, rank, n);
        TailMembers(b, rank, n);
      }
      FallingIsUnique(a[1..], b[1..], rank);
      assert a == [a[0]] + a[1..] && b == [b[0]] + b[1..];
    }
  }

  lemma HeadsAreEqual(a: seq<nat>, b: seq<nat>, rank: nat -> nat)
    requires a != [] && b != [] && Falling(a, rank) && Falling(b, rank) && a[0] in b && b[0] in a
    ensures a[0] == b[0]
  {
    HeadIsLargest(a, rank, b[0]);
    HeadIsLargest(b, rank, a[0]);
  }

  lemma HeadIsLargest(a: seq<nat>, rank: nat -> nat, n: nat)
    requires Falling(a, rank) && n in a
    ensures n == a[0] || rank(a[0]) > rank(n)
  {
    var i :| 0 <= i < |a| && a[i] == n;
  }

  lemma TailMembers(a: seq<nat>, rank: nat -> nat, n: nat)
    requires a != [] && Falling(a, rank)
    ensures n in a[1..] <==> n in a && n != a[0]
  {
    if n in a && n != a[0] {
      var i :| 0 <= i < |a| && a[i] == n;
      assert a[1..][i - 1] == n;
    }
    if n in a[1..] {
      var i :| 0 <= i < |a[1..]| && a[1..][i] == n;
      assert a[i + 1] == n && rank(a[0]) > rank(a[i + 1]);
    }
  }

  lemma {:induction false} PresentMembers(o: seq<nat>, v: Coins, n: nat)
    ensures n in Present(o, v) <==> n in o && Have(v, n) > 0
  {
    if o != [] {
      PresentMembers(o[1..], v, n);
      assert o == [o[0]] + o[1..];
    }
  }

  /** No two nominals that v has share a key (taken from the counts in u). */
  predicate TieFree(key: (nat, nat) -> nat, u: Coins, v: Coins) {
    forall n, m | n in u && m in u && n != m && Have(v, n) > 0 && Have(v, m) > 0 ::
      key(n, u[n]) != key(m, u[m])
  }

  lemma {:induction false} PresentFalls(o: seq<nat>, u: Coins, v: Coins, key: (nat, nat) -> nat)
    requires Distinct(o) && (forall n | n in o :: n in u) && TieFree(key, u, v)
    requires forall i, j | 0 <= i < j < |o| :: key(o[i], Have(u, o[i])) >= key(o[j], Have(u, o[j]))
    ensures Falling(Present(o, v), n => key(n, Have(u, n)))
  {
    if o != [] {
      var rest := Present(o[1..], v);
      PresentFalls(o[1..], u, v, key);
      if Have(v, o[0]) > 0 {
        forall n | n in rest ensures key(o[0], Have(u, o[0])) > key(n, Have(u, n)) {
          PresentMembers(o[1..], v, n);
          var i :| 0 <= i < |o[1..]| && o[1..][i] == n;
          assert o[i + 1] == n && o[0] != o[i + 1];
          assert key(o[0], u[o[0]]) != key(n, u[n]);
        }
        forall i, j | 0 <= i < j < |[o[0]] + rest|
          ensures key(([o[0]] + rest)[i], Have(u, ([o[0]] + rest)[i]))
                > key(([o[0]] + rest)[j], Have(u, ([o[0]] + rest)[j]))
        {
          if i == 0 {
            assert rest[j - 1] in rest;
          }
        }
      }
    }
  }

  lemma {:induction false} OrderSize(o: seq<nat>, keys: set<nat>)
    requires Distinct(o) && forall n :: n in o <==> n in keys
    ensures |o| == |keys|
    decreases |o|
  {
    if o == [] {
      assert keys == {};
    } else {
      var last := |o| - 1;
      var rest := o[..last];
      forall n ensures n in rest <==> n in keys - {o[last]} {
        if n in keys - {o[last]} {
          var i :| 0 <= i < |o| && o[i] == n;
          assert rest[i] == n;
        }
        if n in rest {
          var i :| 0 <= i < |rest| && rest[i] == n;
          assert o[i] == n && o[i] != o[last];
        }
      }
      OrderSize(rest, keys - {o[last]});
      assert o[last] in keys;
    }
  }

  lemma OrdersAreSame(o: seq<nat>, o': seq<nat>, u: Coins, v: Coins, key: (nat, nat) -> nat)
    requires IsOrder(o, u, key) && IsOrder(o', u, key) && TieFree(key, u, v)
    ensures SamePlan(Ordered(o), Ordered(o'), v)
  {
    OrderSize(o, u.Keys);
    OrderSize(o', u.Keys);
    PresentFalls(o, u, v, key);
    PresentFalls(o', u, v, key);
    forall n ensures n in Present(o, v) <==> n in Present(o', v) {
      PresentMembers(o, v, n);
      PresentMembers(o', v, n);
    }
    FallingIsUnique(Present(o, v), Present(o', v), n => key(n, Have(u, n)));
  }

  // ---------------------------------------------------------------- agreement

  /** The strategy's keys tell apart all nominals of which v has any. */
  predicate Decisive(s: Strategy, v: Coins)
    decreases s
  {
    match s
    case Generic(key) => TieFree(key, v, v)
    case Statistical(stat) => TieFree(ByCount, stat, v)
    case Combine(_, s1, s2) => Decisive(s1, v) && Decisive(s2, v)
  }

  lemma {:induction false} LegalPlansAreSame(s: Strategy, v: Coins, p: Plan, q: Plan)
    requires Legal(s, v, p) && Legal(s, v, q) && Decisive(s, v)
    ensures SamePlan(p, q, v)
    decreases s
  {
    match s
    case Generic(key) => OrdersAreSame(p.order, q.order, v, v, key);
    case Statistical(stat) => OrdersAreSame(p.order, q.order, stat, v, ByCount);
    case Combine(_, s1, s2) =>
      LegalPlansAreSame(s1, v, p.p1, q.p1);
      LegalPlansAreSame(s2, v, p.p2, q.p2);
  }

  /** A dry run and the withdrawal after it spend the same coins, whatever order the sorting
      gives each of them, when the strategy is decisive. */
  lemma DryRunAgrees(s: Strategy, v: Coins, p: Plan, q: Plan, amount: nat)
    requires Legal(s, v, p) && Legal(s, v, q) && Decisive(s, v)
    ensures Spend(v, p, amount) == Spend(v, q, amount)
  {
    LegalPlansAreSame(s, v, p, q);
    SameSpending(v, v, p, q, amount);
  }

  // ---------------------------------------------------------------- which keys are decisive

  /** Groups that the program can hold and total: positive 32-bit nominals, 64-bit counts, and
      a total that is an amount. */
  ghost predicate Representable(v: Coins) {
    && (forall n | n in v :: 0 < n < AMOUNT_LIMIT && v[n] < COUNT_LIMIT)
    && TotalOf(v) < AMOUNT_LIMIT
  }

  /** Sorting by this key, a dry run and the withdrawal after it always agree on success. */
  ghost predicate AlwaysAgrees(key: (nat, nat) -> nat) {
    forall v: Coins, p: Plan, q: Plan, a: nat
      | Representable(v) && Legal(Generic(key), v, p) && Legal(Generic(key), v, q) && a < AMOUNT_LIMIT ::
      Spend(v, p, a).Paid? == Spend(v, q, a).Paid?
  }

  /** The key gives different values to different nominals, for all counts whose coins can be
      in one group. */
  ghost predicate NeverTies(key: (nat, nat) -> nat) {
    forall n: nat, c: nat, m: nat, d: nat
      | 0 < m < n < AMOUNT_LIMIT && 0 < c < COUNT_LIMIT && 0 < d < COUNT_LIMIT && n * c + m * d < AMOUNT_LIMIT ::
      key(n, c) != key(m, d)
  }

  lemma PairFits(v: Coins, n: nat, m: nat)
    requires n in v && m in v && n != m
    ensures n * v[n] + m * v[m] <= TotalOf(v)
  {
    TotalSplits(v, n);
    TotalSplits(v - {n}, m);
  }

  lemma NeverTiesIsTieFree(key: (nat, nat) -> nat, v: Coins)
    requires NeverTies(key) && Representable(v)
    ensures TieFree(key, v, v)
  {
    forall n, m | n in v && m in v && n != m && Have(v, n) > 0 && Have(v, m) > 0
      ensures key(n, v[n]) != key(m, v[m])
    {
      PairFits(v, n, m);
      if n < m {
        assert key(m, v[m]) != key(n, v[n]);
      }
    }
  }

  /** Two nominals whose keys tie. */
  function Pair(n: nat, c: nat, m: nat, d: nat): (v: Coins) {
    map[n := c, m := d]
  }

  lemma PairTotal(n: nat, c: nat, m: nat, d: nat)
    requires n != m
    ensures TotalOf(Pair(n, c, m, d)) == n * c + m * d
  {
    var v := Pair(n, c, m, d);
    TotalSplits(v, n);
    TotalSplits(v - {n}, m);
    assert v - {n} - {m} == map[];
  }

  /** The larger nominal first: all of it, and all but one of the smaller, pay exactly. */
  lemma LargerFirstPays(n: nat, c: nat, m: nat, d: nat, a: nat)
    requires 0 < m < n && c > 0 && d > 0 && a == n * c + m * (d - 1)
    ensures Spend(Pair(n, c, m, d), Ordered([n, m]), a).Paid?
  {
    var v := Pair(n, c, m, d);
    var o := [n, m];
    PairSize(n, c, m, d);
    RestAfterLarger(n, c, m, d);
    QuotientAtLeast(a, n, c);
    assert TakenOf(v, n, a) == c;
    var v1, a1 := v[n := v[n] - c], m * (d - 1);
    QuotientIs(a1, m, d - 1, 0);
    assert TakenOf(v1, m, a1) == d - 1;
    assert o[1..] == [m] && [m][1..] == [];
    PassOfOne(v1, m, a1);
    RescanIsSinglePass(v, o, a);
  }

  /** The smaller first: it is used up, and what remains is no multiple of the larger. */
  lemma SmallerFirstFails(n: nat, c: nat, m: nat, d: nat, a: nat)
    requires 0 < m < n && c > 0 && d > 0 && a == n * c + m * (d - 1)
    ensures !Spend(Pair(n, c, m, d), Ordered([m, n]), a).Paid?
  {
    var v := Pair(n, c, m, d);
    var o := [m, n];
    PairSize(n, c, m, d);
    RestAfterSmaller(n, c, m, d);
    QuotientAtLeast(a, m, d);
    assert TakenOf(v, m, a) == d;
    var v1, a1 := v[m := v[m] - d], n * c - m;
    QuotientIs(a1, n, c - 1, n - m);
    assert TakenOf(v1, n, a1) == c - 1;
    assert o[1..] == [n] && [n][1..] == [];
    PassOfOne(v1, n, a1);
    RescanIsSinglePass(v, o, a);
  }

  lemma RestAfterLarger(n: nat, c: nat, m: nat, d: nat)
    requires d > 0
    ensures m * (d - 1) >= 0 && n * c + m * (d - 1) >= c * n
    ensures n * c + m * (d - 1) - c * n == m * (d - 1) == (d - 1) * m
  {}

  lemma RestAfterSmaller(n: nat, c: nat, m: nat, d: nat)
    requires 0 < m < n && c > 0 && d > 0
    ensures n * c >= n && n * c + m * (d - 1) - d * m == n * c - m
    ensures n * c + m * (d - 1) >= d * m
    ensures n * c - m == (c - 1) * n + (n - m)
  {
    MulMono(1, c, n);
  }

  lemma QuotientAtLeast(a: nat, n: nat, k: nat)
    requires n > 0 && a >= k * n
    ensures a / n >= k
  {
    QuotientFits(a, n);
    if a / n < k {
      MulMono(a / n + 1, k, n);
    }
  }

  lemma PassOfOne(v: Coins, n: nat, a: nat)
    requires n > 0
    ensures Pass(v, [n], a).rest == a - TakenOf(v, n, a) * n
  {
    TakenFits(v, n, a);
    assert [n][1..] == [];
  }

  lemma PairSize(n: nat, c: nat, m: nat, d: nat)
    requires n != m
    ensures |Pair(n, c, m, d)| == 2
  {
    assert Pair(n, c, m, d).Keys == {n, m};
    assert |Pair(n, c, m, d)| == |Pair(n, c, m, d).Keys|;
  }

  lemma TieDisagrees(key: (nat, nat) -> nat, n: nat, c: nat, m: nat, d: nat)
    requires 0 < m < n < AMOUNT_LIMIT && 0 < c < COUNT_LIMIT && 0 < d < COUNT_LIMIT
    requires n * c + m * d < AMOUNT_LIMIT && key(n, c) == key(m, d)
    ensures !AlwaysAgrees(key)
  {
    PairIsRepresentable(n, c, m, d);
    OneCoinLess(m, d);
    TieDisagreesAt(key, n, c, m, d, n * c + m * (d - 1));
  }

  lemma TieDisagreesAt(key: (nat, nat) -> nat, n: nat, c: nat, m: nat, d: nat, a: nat)
    requires 0 < m < n && c > 0 && d > 0 && key(n, c) == key(m, d)
    requires a == n * c + m * (d - 1) && a < AMOUNT_LIMIT && Representable(Pair(n, c, m, d))
    ensures !AlwaysAgrees(key)
  {
    LargerFirstPays(n, c, m, d, a);
    SmallerFirstFails(n, c, m, d, a);
    BothOrdersAreLegal(key, n, c, m, d);
    OneDisagreement(key, Pair(n, c, m, d), Ordered([n, m]), Ordered([m, n]), a);
  }

  lemma PairIsRepresentable(n: nat, c: nat, m: nat, d: nat)
    requires 0 < m < n < AMOUNT_LIMIT && 0 < c < COUNT_LIMIT && 0 < d < COUNT_LIMIT
    requires n * c + m * d < AMOUNT_LIMIT
    ensures Representable(Pair(n, c, m, d))
  {
    PairTotal(n, c, m, d);
  }

  lemma OneDisagreement(key: (nat, nat) -> nat, v: Coins, p: Plan, q: Plan, a: nat)
    requires Representable(v) && Legal(Generic(key), v, p) && Legal(Generic(key), v, q)
    requires a < AMOUNT_LIMIT && Spend(v, p, a).Paid? && !Spend(v, q, a).Paid?
    ensures !AlwaysAgrees(key)
  {}

  lemma OneCoinLess(m: nat, d: nat)
    requires d > 0
    ensures 0 <= m * (d - 1) <= m * d
  {}

  lemma BothOrdersAreLegal(key: (nat, nat) -> nat, n: nat, c: nat, m: nat, d: nat)
    requires n != m && key(n, c) == key(m, d)
    ensures Legal(Generic(key), Pair(n, c, m, d), Ordered([n, m]))
    ensures Legal(Generic(key), Pair(n, c, m, d), Ordered([m, n]))
  {}

  /** Exactly the keys that never tie make the dry run reliable. */
  lemma AgreesIffNeverTies(key: (nat, nat) -> nat)
    ensures AlwaysAgrees(key) <==> NeverTies(key)
  {
    if NeverTies(key) {
      forall v: Coins, p: Plan, q: Plan, a: nat
        | Representable(v) && Legal(Generic(key), v, p) && Legal(Generic(key), v, q) && a < AMOUNT_LIMIT
        ensures Spend(v, p, a).Paid? == Spend(v, q, a).Paid?
      {
        NeverTiesIsTieFree(key, v);
        DryRunAgrees(Generic(key), v, p, q, a);
      }
    } else {
      var n: nat, c: nat, m: nat, d: nat :|
        0 < m < n < AMOUNT_LIMIT && 0 < c < COUNT_LIMIT && 0 < d < COUNT_LIMIT
        && n * c + m * d < AMOUNT_LIMIT && key(n, c) == key(m, d);
      TieDisagrees(key, n, c, m, d);
    }
  }

  /** The least-count strategy is reliable; most-available is not: one 2 and one 1 tie. */
  lemma LeastCountAgrees()
    ensures AlwaysAgrees(ByNominal) && !AlwaysAgrees(ByCount)
  {
    AgreesIffNeverTies(ByNominal);
    TieDisagrees(ByCount, 2, 1, 1, 1);
  }
}
