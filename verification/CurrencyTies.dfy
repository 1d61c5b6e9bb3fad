/** For one group of coins: a dry run and the withdrawal after it spend the same coins, for every
    amount, exactly when the sort has no tie among the nominals that are there. */
module CurrencyTies {
  import opened Currency
  import opened CurrencyPass
  import opened CurrencyAgreement
  import opened CurrencySort
  import CurrencyGreedy

  /** What the coins of these nominals are worth. */
  function Worth(v: Coins, o: seq<nat>): (r: nat) {
    if o == [] then 0 else o[0] * Have(v, o[0]) + Worth(v, o[1..])
  }

  lemma {:induction false} WorthOfOthers(v: Coins, w: Coins, o: seq<nat>)
    requires forall n | n in o :: Have(w, n) == Have(v, n)
    ensures Worth(w, o) == Worth(v, o)
  {
    if o != [] {
      assert o[0] in o;
      WorthOfOthers(v, w, o[1..]);
    }
  }

  lemma {:induction false} WorthWithin(v: Coins, o: seq<nat>)
    requires Distinct(o)
    ensures Worth(v, o) <= TotalOf(v)
    decreases |o|
  {
    if o != [] {
      var n, rest := o[0], o[1..];
      HeadOnce(o);
      if n in v {
        TotalSplits(v, n);
        WorthOfOthers(v, v - {n}, rest);
        WorthWithin(v - {n}, rest);
      } else {
        WorthWithin(v, rest);
        NoneIsWorthless(n, Have(v, n));
      }
    }
  }

  lemma HeadOnce(o: seq<nat>)
    requires o != [] && Distinct(o)
    ensures o[0] !in o[1..] && Distinct(o[1..])
  {
    forall i | 0 <= i < |o[1..]| ensures o[1..][i] != o[0] {
      assert o[i + 1] != o[0];
    }
  }

  lemma NoneIsWorthless(n: nat, c: nat)
    requires c == 0
    ensures n * c == 0
  {}

  lemma {:induction false} WorthAppends(v: Coins, o: seq<nat>, n: nat)
    ensures Worth(v, o + [n]) == Worth(v, o) + n * Have(v, n)
  {
    if o == [] {
      assert [n][1..] == [];
    } else {
      WorthAppends(v, o[1..], n);
      assert (o + [n])[1..] == o[1..] + [n];
    }
  }

  /** The same but for the nominals of o. */
  ghost predicate SameBut(v: Coins, w: Coins, o: seq<nat>) {
    w.Keys == v.Keys && forall n | n !in o :: Have(w, n) == Have(v, n)
  }

  lemma SameButJoins(v: Coins, v1: Coins, w: Coins, o: seq<nat>)
    requires o != [] && SameBut(v, v1, [o[0]]) && SameBut(v1, w, o[1..])
    ensures SameBut(v, w, o)
  {
    assert o == [o[0]] + o[1..];
  }

  /** The pass over some nominals uses up all of their coins when the amount is at least what they
      are worth. */
  lemma {:induction false} PassUsesUp(v: Coins, o: seq<nat>, b: nat) returns (w: Coins)
    requires AllPositive(o) && Distinct(o)
    ensures Pass(v, o, Worth(v, o) + b) == Passed(w, b) && SameBut(v, w, o)
    decreases |o|
  {
    w := v;
    if o != [] {
      var n, rest, b1 := o[0], o[1..], Worth(v, o[1..]) + b;
      var k, b', v1 := CurrencyGreedy.HeadOfPass(v, o, n * Have(v, n) + b1);
      AllOfFirst(v, n, Have(v, n), b1);
      HeadOnce(o);
      WorthOfOthers(v, v1, rest);
      w := PassUsesUp(v1, rest, b);
      SameButJoins(v, v1, w, o);
    }
  }

  lemma AllOfFirst(v: Coins, n: nat, k: nat, b: nat)
    requires n > 0 && k == Have(v, n)
    ensures TakenOf(v, n, n * k + b) == k && n * k == k * n
  {
    QuotientAtLeast(n * k + b, n, k);
  }

  lemma PassReaches(v: Coins, before: seq<nat>, o: seq<nat>, rest: seq<nat>, b: nat) returns (w: Coins)
    requires AllPositive(o) && Distinct(o) && o == before + rest
    ensures AllPositive(rest) && Pass(v, o, Worth(v, before) + b) == Pass(w, rest, b) && SameBut(v, w, before)
  {
    var i := |before|;
    assert o[..i] == before && o[i..] == rest;
    CurrencyGreedy.PassSplits(v, o, i, Worth(v, before) + b);
    w := PassUsesUp(v, before, b);
  }

  /** The pass leaves alone what is not in its order. */
  lemma {:induction false} PassKeepsOthers(v: Coins, o: seq<nat>, a: nat, m: nat)
    requires AllPositive(o) && m !in o
    ensures Have(Pass(v, o, a).left, m) == Have(v, m)
    decreases |o|
  {
    if o != [] {
      var n := o[0];
      var k := TakenOf(v, n, a);
      TakenFits(v, n, a);
      PassKeepsOthers(if k == 0 then v else v[n := v[n] - k], o[1..], a - k * n, m);
    }
  }

  /** With the larger of two nominals first, its own worth takes none of the smaller. */
  lemma LargerFirst(w: Coins, n: nat, o: seq<nat>)
    requires AllPositive([n] + o) && Have(w, n) > 0
    ensures Pass(w, [n] + o, n).left == w[n := w[n] - 1]
  {
    assert ([n] + o)[0] == n && ([n] + o)[1..] == o;
    QuotientIs(n, n, 1, 0);
    NothingLeft(w[n := w[n] - 1], o);
  }

  /** With the smaller first, it takes some. */
  lemma SmallerFirst(w: Coins, m: nat, o: seq<nat>, a: nat)
    requires AllPositive([m] + o) && Have(w, m) > 0 && m !in o && m <= a
    ensures Have(Pass(w, [m] + o, a).left, m) < Have(w, m)
  {
    var k := TakenOf(w, m, a);
    assert ([m] + o)[0] == m && ([m] + o)[1..] == o;
    QuotientAtLeast(a, m, 1);
    TakenFits(w, m, a);
    PassKeepsOthers(w[m := w[m] - k], o, a - k * m, m);
  }

  /** Two orders that agree up to two nominals, and then have them either way round. */
  lemma OrdersSpendApart(v: Coins, before: seq<nat>, n: nat, m: nat, o: seq<nat>, o': seq<nat>, a: nat)
    requires AllPositive(o) && AllPositive(o') && Distinct(o) && Distinct(o') && |o| >= |v| && |o'| >= |v|
    requires before + [n] + [m] <= o && before + [m] + [n] <= o'
    requires m < n && Have(v, n) > 0 && Have(v, m) > 0 && a == Worth(v, before) + n
    ensures Spend(v, Ordered(o), a) != Spend(v, Ordered(o'), a)
  {
    var p := |before|;
    var rest, rest' := o[p + 1..], o'[p + 1..];
    assert o[p] == n && o'[p] == m && o[p + 1] == m;
    assert o == before + ([n] + rest) && o' == before + ([m] + rest');
    var w := PassReaches(v, before, o, [n] + rest, n);
    var w' := PassReaches(v, before, o', [m] + rest', n);
    NotBefore(before, n, rest);
    NotBefore(before, m, rest');
    LargerFirst(w, n, rest);
    SmallerFirst(w', m, rest', n);
    RescanIsSinglePass(v, o, a);
    RescanIsSinglePass(v, o', a);
    assert Have(Spend(v, Ordered(o), a).left, m) == Have(v, m);
  }

  lemma NotBefore(before: seq<nat>, n: nat, rest: seq<nat>)
    requires Distinct(before + ([n] + rest))
    ensures n !in before && n !in rest
  {
    var o := before + ([n] + rest);
    forall i | 0 <= i < |before| ensures before[i] != n {
      assert o[i] != o[|before|];
    }
    forall i | 0 <= i < |rest| ensures rest[i] != n {
      assert o[|before|] != o[|before| + 1 + i];
    }
  }

  // ---------------------------------------------------------------- exactly when

  /** Whatever orders sorting the group u by this key gives, spending from v ends the same, for
      every amount up to what v is worth. */
  ghost predicate SpendsAlike(u: Coins, v: Coins, key: (nat, nat) -> nat) {
    forall o, o', a: nat | IsOrder(o, u, key) && IsOrder(o', u, key) && a <= TotalOf(v) ::
      Spend(v, Ordered(o), a) == Spend(v, Ordered(o'), a)
  }

  lemma TieSpendsApart(u: Coins, v: Coins, key: (nat, nat) -> nat, n: nat, m: nat)
    requires (forall x | x in u :: x > 0) && |u| >= |v|
    requires n in u && m in u && m < n && Have(v, n) > 0 && Have(v, m) > 0 && key(n, u[n]) == key(m, u[m])
    ensures !SpendsAlike(u, v, key)
  {
    var before, o, o' := BothOrders(u, key, n, m);
    var a := Worth(v, before) + n;
    OrderSize(o, u.Keys);
    OrderSize(o', u.Keys);
    OrdersSpendApart(v, before, n, m, o, o', a);
    TieIsAffordable(v, before, n, o);
  }

  lemma TieIsAffordable(v: Coins, before: seq<nat>, n: nat, o: seq<nat>)
    requires Distinct(o) && before + [n] <= o && Have(v, n) > 0
    ensures Worth(v, before) + n <= TotalOf(v)
  {
    assert Distinct(before + [n]) by {
      assert before + [n] == o[..|before| + 1];
    }
    WorthAppends(v, before, n);
    WorthWithin(v, before + [n]);
    MulMono(1, Have(v, n), n);
  }

  /** With too few nominals to sort, every withdrawal panics alike. */
  lemma TooFewPanic(u: Coins, v: Coins, key: (nat, nat) -> nat)
    requires |u| < |v|
    ensures SpendsAlike(u, v, key)
  {
    forall o, o', a: nat | IsOrder(o, u, key) && IsOrder(o', u, key) && a <= TotalOf(v)
      ensures Spend(v, Ordered(o), a) == Spend(v, Ordered(o'), a)
    {
      OrderSize(o, u.Keys);
      OrderSize(o', u.Keys);
    }
  }

  /** A tie among the nominals that are there, and only that, makes some amount come out
      differently: the worth of all coins sorted before the tie, and of one of the larger. */
  lemma SpendsAlikeIff(u: Coins, v: Coins, key: (nat, nat) -> nat)
    requires forall x | x in u :: x > 0
    ensures SpendsAlike(u, v, key) <==> |u| < |v| || TieFree(key, u, v)
  {
    if |u| < |v| {
      TooFewPanic(u, v, key);
    } else if TieFree(key, u, v) {
      forall o, o', a: nat | IsOrder(o, u, key) && IsOrder(o', u, key) && a <= TotalOf(v)
        ensures Spend(v, Ordered(o), a) == Spend(v, Ordered(o'), a)
      {
        OrdersAreSame(o, o', u, v, key);
        SameSpending(v, v, Ordered(o), Ordered(o'), a);
      }
    } else {
      var n, m :| n in u && m in u && n != m && Have(v, n) > 0 && Have(v, m) > 0 && key(n, u[n]) == key(m, u[m]);
      if m < n {
        TieSpendsApart(u, v, key, n, m);
      } else {
        TieSpendsApart(u, v, key, m, n);
      }
    }
  }

  /** The dry run and the withdrawal after it spend the same coins of v, whatever the sorting
      does and whatever the amount. */
  ghost predicate GroupAgrees(s: Strategy, v: Coins) {
    forall p, q, a: nat | Legal(s, v, p) && Legal(s, v, q) && a <= TotalOf(v) :: Spend(v, p, a) == Spend(v, q, a)
  }

  /** A strategy that sorts one group by one key. */
  lemma SortedAgrees(s: Strategy, u: Coins, key: (nat, nat) -> nat, v: Coins)
    requires (s == Generic(key) && u == v) || (s == Statistical(u) && key == ByCount)
    ensures GroupAgrees(s, v) <==> SpendsAlike(u, v, key)
  {
    forall o | IsOrder(o, u, key) ensures Legal(s, v, Ordered(o)) {}
    if GroupAgrees(s, v) {
      forall o, o', a: nat | IsOrder(o, u, key) && IsOrder(o', u, key) && a <= TotalOf(v)
        ensures Spend(v, Ordered(o), a) == Spend(v, Ordered(o'), a)
      {
        assert Legal(s, v, Ordered(o)) && Legal(s, v, Ordered(o'));
      }
    }
  }

  /** For one group of positive nominals: the sort has no tie among those present. */
  lemma GenericAgreesIff(key: (nat, nat) -> nat, v: Coins)
    requires forall x | x in v :: x > 0
    ensures GroupAgrees(Generic(key), v) <==> TieFree(key, v, v)
  {
    SortedAgrees(Generic(key), v, key, v);
    SpendsAlikeIff(v, v, key);
  }

  /** For one group, and statistics of positive nominals: the counts of the statistics do not
      tie among those present, or there are too few of them for any withdrawal. */
  lemma StatisticalAgreesIff(stat: Coins, v: Coins)
    requires forall x | x in stat :: x > 0
    ensures GroupAgrees(Statistical(stat), v) <==> |stat| < |v| || TieFree(ByCount, stat, v)
  {
    SortedAgrees(Statistical(stat), stat, ByCount, v);
    SpendsAlikeIff(stat, v, ByCount);
  }
}
