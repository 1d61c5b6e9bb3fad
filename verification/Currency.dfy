/** Change-making on values: what the strategies pick, coin after coin, and what is left.
    The classes in NominalGroup.dfy do this in place. */
module Currency {

  /** Amounts and nominals are 32-bit, counts 64-bit in the program. */
  const AMOUNT_LIMIT: nat := 0x1_0000_0000
  const COUNT_LIMIT: nat := 0x1_0000_0000_0000_0000

  /** How many there are of each valid nominal. */
  type Coins = map<nat, nat>

  /** A missing nominal reads as zero. */
  function Have(v: Coins, n: nat): (c: nat) {
    if n in v then v[n] else 0
  }

  // ---------------------------------------------------------------- totals

  ghost function TotalOf(v: Coins): (r: nat) {
    if v == map[] then 0
    else
      var n :| n in v;
      n * v[n] + TotalOf(v - {n})
  }

  lemma {:induction false} TotalSplits(v: Coins, n: nat)
    requires n in v
    ensures TotalOf(v) == n * v[n] + TotalOf(v - {n})
    decreases |v|
  {
    var m: nat :| m in v && TotalOf(v) == m * v[m] + TotalOf(v - {m});
    if m != n {
      TotalSplits(v - {m}, n);
      TotalSplits(v - {n}, m);
      assert v - {m} - {n} == v - {n} - {m};
    }
  }

  lemma TotalUpdated(v: Coins, n: nat, c: nat)
    requires n in v
    ensures TotalOf(v[n := c]) + n * v[n] == TotalOf(v) + n * c
  {
    TotalSplits(v, n);
    TotalSplits(v[n := c], n);
    assert v[n := c] - {n} == v - {n};
  }

  // ---------------------------------------------------------------- orders

  predicate Distinct(o: seq<nat>) {
    forall i, j | 0 <= i < j < |o| :: o[i] != o[j]
  }

  /** A result that sorting the nominals may have: all of them, by falling key, with ties in
      any order. */
  ghost predicate IsOrder(o: seq<nat>, v: Coins, key: (nat, nat) -> nat) {
    && Distinct(o)
    && (forall n :: n in o <==> n in v)
    && forall i, j | 0 <= i < j < |o| :: key(o[i], Have(v, o[i])) >= key(o[j], Have(v, o[j]))
  }

  function ByNominal(n: nat, c: nat): (k: nat) {
    n
  }

  /** The count is cut to the 32 bits of a nominal. */
  function ByCount(n: nat, c: nat): (k: nat) {
    c % AMOUNT_LIMIT
  }

  // ---------------------------------------------------------------- strategies

  datatype Strategy =
    | Generic(key: (nat, nat) -> nat)
    | Statistical(stat: Coins)
    | Combine(below: (nat, nat) -> bool, s1: Strategy, s2: Strategy)

  /** A strategy after its Reset.  A combined one draws from a generator with a seed;
      below(seed, i) says whether draw i falls below its ratio. */
  datatype Plan =
    | Ordered(order: seq<nat>)
    | Combined(below: (nat, nat) -> bool, seed: nat, draws: nat, p1: Plan, p2: Plan)

  /** The plans that Reset may leave. */
  ghost predicate Legal(s: Strategy, v: Coins, p: Plan)
    decreases s
  {
    match s
    case Generic(key) => p.Ordered? && IsOrder(p.order, v, key)
    case Statistical(stat) => p.Ordered? && IsOrder(p.order, stat, ByCount)
    case Combine(below, s1, s2) =>
      && p.Combined? && p.below == below && p.seed == TotalOf(v) % AMOUNT_LIMIT && p.draws == 0
      && Legal(s1, v, p.p1) && Legal(s2, v, p.p2)
  }

  // ---------------------------------------------------------------- spending

  datatype Choice = Chosen(nominal: nat) | NoneFits | OrderTooShort

  function FirstFit(v: Coins, o: seq<nat>, max: nat): (c: Choice) {
    if o == [] then NoneFits
    else if o[0] <= max && Have(v, o[0]) > 0 then Chosen(o[0])
    else FirstFit(v, o[1..], max)
  }

  datatype Pick = Pick(choice: Choice, plan: Plan)

  function PickOne(v: Coins, p: Plan, max: nat): (r: Pick)
    decreases p
  {
    match p
    case Ordered(o) =>
      Pick(if |o| < |v| then OrderTooShort else if max == 0 then Chosen(0) else FirstFit(v, o, max), p)
    case Combined(below, seed, draws, p1, p2) =>
      if below(seed, draws) then
        var r := PickOne(v, p1, max);
        Pick(r.choice, Combined(below, seed, draws + 1, r.plan, p2))
      else
        var r := PickOne(v, p2, max);
        Pick(r.choice, Combined(below, seed, draws + 1, p1, r.plan))
  }

  function TakeOne(v: Coins, n: nat): (v': Coins)
    requires Have(v, n) > 0
  {
    v[n := v[n] - 1]
  }

  /** How a withdrawal ends, with the coins that are left. */
  datatype Outcome = Paid(left: Coins) | Short(left: Coins) | Panic(left: Coins)

  function Spend(v: Coins, p: Plan, amount: nat): (r: Outcome)
    decreases amount
  {
    if amount == 0 then Paid(v)
    else
      ChosenIsThere(v, p, amount);
      var pick := PickOne(v, p, amount);
      match pick.choice
      case NoneFits => Short(v)
      case OrderTooShort => Panic(v)
      case Chosen(n) =>
        if n == 0 then Panic(TakeOne(v, n)) else Spend(TakeOne(v, n), pick.plan, amount - n)
  }

  lemma {:induction false} FirstFitIsThere(v: Coins, o: seq<nat>, max: nat)
    ensures var c := FirstFit(v, o, max);
            && c != OrderTooShort
            && (c.Chosen? ==> c.nominal <= max && c.nominal in o && Have(v, c.nominal) > 0)
  {
    if o != [] && !(o[0] <= max && Have(v, o[0]) > 0) {
      FirstFitIsThere(v, o[1..], max);
    }
  }

  /** What is picked fits the amount and is there to be taken: nothing underflows. */
  lemma {:induction false} ChosenIsThere(v: Coins, p: Plan, max: nat)
    ensures var c := PickOne(v, p, max).choice;
            c.Chosen? && max > 0 ==> c.nominal <= max && Have(v, c.nominal) > 0
    decreases p
  {
    match p
    case Ordered(o) => FirstFitIsThere(v, o, max);
    case Combined(below, seed, draws, p1, p2) =>
      ChosenIsThere(v, p1, max);
      ChosenIsThere(v, p2, max);
  }

  /** What is left of v when the amount is spent. */
  ghost predicate Conserves(v: Coins, amount: nat, r: Outcome) {
    && r.left.Keys == v.Keys
    && (forall n | n in v :: r.left[n] <= v[n])
    && TotalOf(r.left) <= TotalOf(v) <= TotalOf(r.left) + amount
    && (r.Paid? ==> TotalOf(v) == TotalOf(r.left) + amount)
    && (r.Short? ==> TotalOf(v) < TotalOf(r.left) + amount)
  }

  /** Whatever the strategy: the total falls by exactly the amount when it is paid, by less
      when it is not, and no count ever rises. */
  lemma SpendConserves(v: Coins, p: Plan, amount: nat)
    ensures Conserves(v, amount, Spend(v, p, amount))
  {
    SpendingConserves(v, p, amount, Spend(v, p, amount));
  }

  lemma {:induction false} SpendingConserves(v: Coins, p: Plan, amount: nat, r: Outcome)
    requires r == Spend(v, p, amount)
    ensures Conserves(v, amount, r)
    decreases amount
  {
    var pick := PickOne(v, p, amount);
    if amount > 0 {
      ChosenIsThere(v, p, amount);
    }
    if amount == 0 || !pick.choice.Chosen? {
      KeepsAll(v, amount, r);
    } else if pick.choice.nominal == 0 {
      TakenFromTotal(v, 0);
    } else {
      var n := pick.choice.nominal;
      SpendTakes(v, p, amount, pick);
      SpendingConserves(TakeOne(v, n), pick.plan, amount - n, r);
      Conserved(v, n, amount, r);
    }
  }

  lemma KeepsAll(v: Coins, amount: nat, r: Outcome)
    requires r.left == v && (r.Paid? ==> amount == 0) && (r.Short? ==> amount > 0)
    ensures Conserves(v, amount, r)
  {}

  /** One coin taken, and the rest spent from what it leaves. */
  lemma SpendTakes(v: Coins, p: Plan, amount: nat, pick: Pick)
    requires amount > 0 && pick == PickOne(v, p, amount) && pick.choice.Chosen? && pick.choice.nominal != 0
    ensures var n := pick.choice.nominal;
            n <= amount && Have(v, n) > 0 && Spend(v, p, amount) == Spend(TakeOne(v, n), pick.plan, amount - n)
  {
    ChosenIsThere(v, p, amount);
  }

  lemma Conserved(v: Coins, n: nat, amount: nat, r: Outcome)
    requires Have(v, n) > 0 && n <= amount && Conserves(TakeOne(v, n), amount - n, r)
    ensures Conserves(v, amount, r)
  {
    TakenFromTotal(v, n);
  }

  lemma TakenFromTotal(v: Coins, n: nat)
    requires Have(v, n) > 0
    ensures TotalOf(TakeOne(v, n)) + n == TotalOf(v)
  {
    TotalUpdated(v, n, v[n] - 1);
    TakesNominal(n, v[n]);
  }

  lemma TakesNominal(n: nat, c: nat)
    requires c > 0
    ensures n * c == n * (c - 1) + n
  {}
}
