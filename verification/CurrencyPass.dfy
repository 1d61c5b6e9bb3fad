/** The coin-at-a-time loop, which rescans its order from the start for every coin, equals one
    pass that takes as many of each nominal as fit. */
module CurrencyPass {
  import opened Currency

  function Min(a: nat, b: nat): (m: nat) {
    if a < b then a else b
  }

  /** How many of n the pass takes towards an amount. */
  function TakenOf(v: Coins, n: nat, amount: nat): (k: nat)
    requires n > 0
  {
    Min(Have(v, n), amount / n)
  }

  datatype Passed = Passed(left: Coins, rest: nat)

  predicate AllPositive(o: seq<nat>) {
    forall i | 0 <= i < |o| :: o[i] > 0
  }

  function Pass(v: Coins, o: seq<nat>, amount: nat): (r: Passed)
    requires AllPositive(o)
  {
    if o == [] then Passed(v, amount)
    else
      var n := o[0];
      var k := TakenOf(v, n, amount);
      TakenFits(v, n, amount);
      Pass(if k == 0 then v else v[n := v[n] - k], o[1..], amount - k * n)
  }

  lemma TakenFits(v: Coins, n: nat, amount: nat)
    requires n > 0
    ensures TakenOf(v, n, amount) * n <= amount
  {
    MulMono(TakenOf(v, n, amount), amount / n, n);
    QuotientFits(amount, n);
  }

  lemma MulMono(a: nat, b: nat, n: nat)
    requires a <= b
    ensures a * n <= b * n
  {}

  lemma QuotientFits(a: nat, n: nat)
    requires n > 0
    ensures (a / n) * n <= a < (a / n) * n + n
  {}

  /** When nothing fits, the pass takes nothing. */
  lemma {:induction false} NothingFits(v: Coins, o: seq<nat>, amount: nat)
    requires AllPositive(o) && FirstFit(v, o, amount) == NoneFits
    ensures Pass(v, o, amount) == Passed(v, amount)
  {
    if o != [] {
      if Have(v, o[0]) > 0 {
        SmallQuotient(amount, o[0]);
      }
      assert TakenOf(v, o[0], amount) == 0;
      NothingFits(v, o[1..], amount);
    }
  }

  lemma SmallQuotient(a: nat, n: nat)
    requires a < n
    ensures a / n == 0
  {}

  lemma QuotientIs(b: nat, n: nat, k: nat, r: nat)
    requires r < n && b == k * n + r
    ensures b / n == k
  {
    QuotientFits(b, n);
    if b / n < k {
      MulMono(b / n + 1, k, n);
    } else if b / n > k {
      MulMono(k + 1, b / n, n);
    }
  }

  lemma OneLess(a: nat, n: nat)
    requires 0 < n <= a
    ensures a / n >= 1 && (a - n) / n == a / n - 1
  {
    QuotientFits(a, n);
    var q := a / n;
    if q == 0 {
      assert false;
    }
    OneFactor(q, n);
    QuotientIs(a - n, n, q - 1, a - q * n);
  }

  /** Taking the first coin that fits does not change where the pass ends. */
  lemma {:induction false} PassAfterOne(v: Coins, o: seq<nat>, amount: nat, n: nat)
    requires AllPositive(o) && Distinct(o)
    requires FirstFit(v, o, amount) == Chosen(n) && 0 < n <= amount && Have(v, n) > 0
    ensures Pass(TakeOne(v, n), o, amount - n) == Pass(v, o, amount)
    decreases |o|
  {
    var m := o[0];
    if m == n {
      HeadIsTaken(v, o, amount);
    } else {
      NoneOfFirst(v, m, amount);
      NoneOfFirst(TakeOne(v, n), m, amount - n);
      FirstFitIsThere(v, o[1..], amount);
      PassAfterOne(v, o[1..], amount, n);
    }
  }

  lemma HeadIsTaken(v: Coins, o: seq<nat>, amount: nat)
    requires o != [] && AllPositive(o) && o[0] <= amount && Have(v, o[0]) > 0
    ensures Pass(TakeOne(v, o[0]), o, amount - o[0]) == Pass(v, o, amount)
  {
    var n := o[0];
    var k, v1 := TakenOf(v, n, amount), TakeOne(v, n);
    OneLess(amount, n);
    OneFactor(k, n);
    assert TakenOf(v1, n, amount - n) == k - 1;
    var w := v[n := v[n] - k];
    assert w == if k - 1 == 0 then v1 else v1[n := v1[n] - (k - 1)];
  }

  lemma OneFactor(k: nat, n: nat)
    requires k > 0
    ensures (k - 1) * n + n == k * n
  {}

  lemma NoneOfFirst(v: Coins, m: nat, amount: nat)
    requires m > 0 && !(m <= amount && Have(v, m) > 0)
    ensures TakenOf(v, m, amount) == 0
  {
    if amount < m {
      SmallQuotient(amount, m);
    }
  }

  /** For every order of positive nominals: the rescanning loop ends exactly where the single
      pass does, and pays exactly when the pass leaves nothing. */
  lemma {:induction false} RescanIsSinglePass(v: Coins, o: seq<nat>, amount: nat)
    requires AllPositive(o) && Distinct(o) && |o| >= |v|
    ensures var r := Pass(v, o, amount);
            Spend(v, Ordered(o), amount) == if r.rest == 0 then Paid(r.left) else Short(r.left)
    decreases amount
  {
    if amount == 0 {
      NothingLeft(v, o);
    } else {
      var pick := PickOne(v, Ordered(o), amount);
      FirstFitIsThere(v, o, amount);
      if pick.choice == NoneFits {
        NothingFits(v, o, amount);
      } else {
        var n := pick.choice.nominal;
        PassAfterOne(v, o, amount, n);
        assert TakeOne(v, n).Keys == v.Keys;
        SameSize(v, TakeOne(v, n));
        RescanIsSinglePass(TakeOne(v, n), o, amount - n);
      }
    }
  }

  lemma SameSize(v: Coins, w: Coins)
    requires v.Keys == w.Keys
    ensures |v| == |w|
  {
    assert |v| == |v.Keys| && |w| == |w.Keys|;
  }

  lemma {:induction false} NothingLeft(v: Coins, o: seq<nat>)
    requires AllPositive(o)
    ensures Pass(v, o, 0) == Passed(v, 0)
  {
    if o != [] {
      SmallQuotient(0, o[0]);
      NothingLeft(v, o[1..]);
    }
  }
}
