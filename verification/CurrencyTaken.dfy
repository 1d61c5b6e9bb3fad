/** Coin by coin, in the order in which they are taken: which nominal each strategy prefers. */
module CurrencyTaken {
  import opened Currency
  import CurrencyAgreement

  /** The coins that a withdrawal takes, one after another. */
  function Taken(v: Coins, p: Plan, a: nat): (ns: seq<nat>)
    decreases a
  {
    if a == 0 then []
    else
      ChosenIsThere(v, p, a);
      var pick := PickOne(v, p, a);
      if pick.choice.Chosen? && pick.choice.nominal != 0
      then [pick.choice.nominal] + Taken(TakeOne(v, pick.choice.nominal), pick.plan, a - pick.choice.nominal)
      else []
  }

  /** What is left of the coins. */
  function Without(v: Coins, ns: seq<nat>): (w: Coins)
    decreases |ns|
  {
    if ns == [] then v else Without(if Have(v, ns[0]) > 0 then TakeOne(v, ns[0]) else v, ns[1..])
  }

  function SumOf(ns: seq<nat>): (s: nat) {
    if ns == [] then 0 else ns[0] + SumOf(ns[1..])
  }

  /** What is still to pay when k coins have been taken, and the plan by then. */
  function PlanAfter(v: Coins, p: Plan, a: nat, k: nat): (q: Plan)
    decreases k
  {
    if k == 0 || a == 0 || !PickOne(v, p, a).choice.Chosen? then p
    else
      ChosenIsThere(v, p, a);
      var pick := PickOne(v, p, a);
      PlanAfter(TakeOne(v, pick.choice.nominal), pick.plan, a - pick.choice.nominal, k - 1)
  }

  /** Spending is taking these coins: what is left, and whether they make up the amount. */
  lemma {:induction false} SpendIsTaken(v: Coins, p: Plan, a: nat)
    requires forall n | n in v :: n > 0
    ensures var ns := Taken(v, p, a); var r := Spend(v, p, a);
            && r.left == Without(v, ns) && SumOf(ns) <= a && (r.Paid? <==> SumOf(ns) == a)
    decreases a
  {
    if a > 0 {
      ChosenIsThere(v, p, a);
      var pick := PickOne(v, p, a);
      if pick.choice.Chosen? {
        var n := pick.choice.nominal;
        SpendTakes(v, p, a, pick);
        SpendIsTaken(TakeOne(v, n), pick.plan, a - n);
        assert Taken(v, p, a)[1..] == Taken(TakeOne(v, n), pick.plan, a - n);
      }
    }
  }

  /** Coin k is what the plan picks from what the coins before it have left. */
  lemma {:induction false} TakenIsPicked(v: Coins, p: Plan, a: nat, k: nat)
    requires k < |Taken(v, p, a)|
    ensures var ns := Taken(v, p, a);
            && SumOf(ns[..k]) < a
            && PickOne(Without(v, ns[..k]), PlanAfter(v, p, a, k), a - SumOf(ns[..k])).choice == Chosen(ns[k])
    decreases k
  {
    var ns := Taken(v, p, a);
    if k > 0 {
      ChosenIsThere(v, p, a);
      var n := ns[0];
      TakenIsPicked(TakeOne(v, n), PickOne(v, p, a).plan, a - n, k - 1);
      assert ns[..k][1..] == ns[1..][..k - 1];
    }
  }

  // ---------------------------------------------------------------- one sorted order

  lemma {:induction false} OrderStays(v: Coins, o: seq<nat>, a: nat, k: nat)
    ensures PlanAfter(v, Ordered(o), a, k) == Ordered(o)
    decreases k
  {
    if k > 0 && a > 0 && PickOne(v, Ordered(o), a).choice.Chosen? {
      ChosenIsThere(v, Ordered(o), a);
      var n := PickOne(v, Ordered(o), a).choice.nominal;
      OrderStays(TakeOne(v, n), o, a - n, k - 1);
    }
  }

  lemma {:induction false} FirstFitIsFirst(v: Coins, o: seq<nat>, max: nat, key: nat -> nat)
    requires FirstFit(v, o, max).Chosen?
    requires forall i, j | 0 <= i < j < |o| :: key(o[i]) >= key(o[j])
    ensures var n := FirstFit(v, o, max).nominal;
            n in o && forall m | m in o && m <= max && Have(v, m) > 0 :: key(n) >= key(m)
  {
    if o[0] <= max && Have(v, o[0]) > 0 {
      forall m | m in o ensures key(o[0]) >= key(m) {
        var i :| 0 <= i < |o| && o[i] == m;
      }
    } else {
      FirstFitIsFirst(v, o[1..], max, key);
      assert o == [o[0]] + o[1..];
    }
  }

  /** Each coin has, of all nominals that are still there and still fit, the largest key. */
  ghost predicate Prefers(v: Coins, p: Plan, a: nat, k: nat, u: Coins, key: (nat, nat) -> nat)
    requires k < |Taken(v, p, a)|
  {
    var ns := Taken(v, p, a);
    var w, rest := Without(v, ns[..k]), a - SumOf(ns[..k]);
    ns[k] in u && forall m | m in u && m <= rest && Have(w, m) > 0 :: key(ns[k], u[ns[k]]) >= key(m, u[m])
  }

  lemma OrderPrefers(v: Coins, o: seq<nat>, a: nat, k: nat, u: Coins, key: (nat, nat) -> nat)
    requires IsOrder(o, u, key) && k < |Taken(v, Ordered(o), a)|
    ensures Prefers(v, Ordered(o), a, k, u, key)
  {
    var ns := Taken(v, Ordered(o), a);
    TakenIsPicked(v, Ordered(o), a, k);
    OrderStays(v, o, a, k);
    FirstFitIsFirst(Without(v, ns[..k]), o, a - SumOf(ns[..k]), n => key(n, Have(u, n)));
  }

  /** Least count: each coin is of the largest nominal that is still there and still fits. */
  lemma LargestIsTaken(v: Coins, p: Plan, a: nat, k: nat)
    requires Legal(Generic(ByNominal), v, p) && k < |Taken(v, p, a)|
    ensures var ns := Taken(v, p, a);
            forall m | m in v && m <= a - SumOf(ns[..k]) && Have(Without(v, ns[..k]), m) > 0 :: ns[k] >= m
  {
    OrderPrefers(v, p.order, a, k, v, ByNominal);
  }

  /** The count that a sort compares: 32 bits of it. */
  function Low(c: nat): (r: nat)
    ensures c < 0x1_0000_0000 ==> r == c
  {
    c % 0x1_0000_0000
  }

  /** Most available: each coin is of a nominal of which the group had most when the withdrawal
      began, of those still there that still fit; of counts of 2^32 and more, the low 32 bits
      are compared. */
  lemma MostAvailableIsTaken(v: Coins, p: Plan, a: nat, k: nat)
    requires Legal(Generic(ByCount), v, p) && k < |Taken(v, p, a)|
    ensures var ns := Taken(v, p, a);
            && ns[k] in v
            && forall m | m in v && m <= a - SumOf(ns[..k]) && Have(Without(v, ns[..k]), m) > 0 ::
                 Low(v[ns[k]]) >= Low(v[m])
  {
    OrderPrefers(v, p.order, a, k, v, ByCount);
  }

  /** Statistical: each coin is of a nominal that the statistics count most often, of those still
      there that still fit. */
  lemma MostFrequentIsTaken(stat: Coins, v: Coins, p: Plan, a: nat, k: nat)
    requires Legal(Statistical(stat), v, p) && k < |Taken(v, p, a)|
    ensures var ns := Taken(v, p, a);
            && ns[k] in stat
            && forall m | m in stat && m <= a - SumOf(ns[..k]) && Have(Without(v, ns[..k]), m) > 0 ::
                 Low(stat[ns[k]]) >= Low(stat[m])
  {
    OrderPrefers(v, p.order, a, k, stat, ByCount);
  }

  // ---------------------------------------------------------------- combinations

  lemma {:induction false} DrawsCount(v: Coins, below: (nat, nat) -> bool, seed: nat, draws: nat,
                                      o1: seq<nat>, o2: seq<nat>, a: nat, k: nat)
    requires k <= |Taken(v, Combined(below, seed, draws, Ordered(o1), Ordered(o2)), a)|
    ensures PlanAfter(v, Combined(below, seed, draws, Ordered(o1), Ordered(o2)), a, k)
         == Combined(below, seed, draws + k, Ordered(o1), Ordered(o2))
    decreases k
  {
    var p := Combined(below, seed, draws, Ordered(o1), Ordered(o2));
    if k > 0 {
      ChosenIsThere(v, p, a);
      var n := PickOne(v, p, a).choice.nominal;
      DrawsCount(TakeOne(v, n), below, seed, draws + 1, o1, o2, a - n, k - 1);
    }
  }

  /** A combination takes coin k as its first strategy would if draw k is below the ratio, and as
      its second one would if not: one draw for each coin, of a generator seeded with the group's
      32-bit total. */
  lemma DrawDecides(s: Strategy, v: Coins, p: Plan, a: nat, k: nat)
    requires s.Combine? && Legal(s, v, p) && p.p1.Ordered? && p.p2.Ordered? && k < |Taken(v, p, a)|
    ensures var ns := Taken(v, p, a);
            && SumOf(ns[..k]) < a
            && Chosen(ns[k]) == PickOne(Without(v, ns[..k]),
                                        if s.below(TotalOf(v) % 0x1_0000_0000, k) then p.p1 else p.p2,
                                        a - SumOf(ns[..k])).choice
  {
    var ns := Taken(v, p, a);
    TakenIsPicked(v, p, a, k);
    DrawsCount(v, p.below, p.seed, 0, p.p1.order, p.p2.order, a, k);
    PartPicks(Without(v, ns[..k]), p.below, p.seed, k, p.p1, p.p2, a - SumOf(ns[..k]), PlanAfter(v, p, a, k));
  }

  lemma PartPicks(w: Coins, below: (nat, nat) -> bool, seed: nat, draws: nat, p1: Plan, p2: Plan, max: nat, q: Plan)
    requires q == Combined(below, seed, draws, p1, p2)
    ensures PickOne(w, q, max).choice == PickOne(w, if below(seed, draws) then p1 else p2, max).choice
  {}

  // ---------------------------------------------------------------- panics

  /** An order that is too short for the group panics before a coin is taken; with positive
      nominals and an order that is not, nothing does. */
  lemma PanicsIff(v: Coins, o: seq<nat>, a: nat)
    requires a > 0 && forall n | n in v :: n > 0
    ensures Spend(v, Ordered(o), a).Panic? <==> |o| < |v|
    ensures |o| < |v| ==> Spend(v, Ordered(o), a) == Panic(v)
  {
    if |o| >= |v| {
      NoPanic(v, o, a);
    }
  }

  lemma {:induction false} NoPanic(v: Coins, o: seq<nat>, a: nat)
    requires |o| >= |v| && forall n | n in v :: n > 0
    ensures !Spend(v, Ordered(o), a).Panic?
    decreases a
  {
    if a > 0 {
      ChosenIsThere(v, Ordered(o), a);
      FirstFitIsThere(v, o, a);
      var c := PickOne(v, Ordered(o), a).choice;
      if c.Chosen? {
        assert TakeOne(v, c.nominal).Keys == v.Keys;
        assert |TakeOne(v, c.nominal)| == |v| by {
          assert |TakeOne(v, c.nominal).Keys| == |v.Keys|;
        }
        NoPanic(TakeOne(v, c.nominal), o, a - c.nominal);
      }
    }
  }

  lemma GenericNeverPanics(key: (nat, nat) -> nat, v: Coins, p: Plan, a: nat)
    requires Legal(Generic(key), v, p) && forall n | n in v :: n > 0
    ensures !Spend(v, p, a).Panic?
  {
    CurrencyAgreement.OrderSize(p.order, v.Keys);
    NoPanic(v, p.order, a);
  }

  /** A nominal 0 of which there are coins panics as soon as no nominal before it fits. */
  lemma ZeroPanics(v: Coins, p: Plan, a: nat)
    requires a > 0 && PickOne(v, p, a).choice == Chosen(0)
    ensures Spend(v, p, a).Panic?
  {}
}
