/** The coins of one machine and the strategies that spend them, updated in place as in
    currency/currency.go; each method is tied to the functions of Currency. */
module NominalGroup {
  import opened Currency
  import opened CurrencyAgreement
  import opened CurrencyPass
  import opened CurrencySort
  import CurrencyGreedy
  import CurrencyComplete
  import CurrencyTaken

  // ---------------------------------------------------------------- what the updates mean

  /** One coin less of each of the other group's, with 64-bit counts. */
  function Lowered(v: Coins, w: Coins): (r: Coins) {
    map n | n in v :: Less(v[n], Have(w, n))
  }

  function Less(c: nat, d: nat): (r: nat)
    ensures d <= c < COUNT_LIMIT ==> r == c - d
  {
    (c - d) % COUNT_LIMIT
  }

  /** Below zero the count wraps: taking is adding's inverse, modulo 2^64. */
  lemma LessWraps(c: nat, d: nat)
    requires c < COUNT_LIMIT && d < COUNT_LIMIT
    ensures Less(c, d) == if d <= c then c - d else c + COUNT_LIMIT - d
  {}

  /** A group that was within another one leaves the difference of the totals. */
  lemma SubConserves(v: Coins, w: Coins)
    requires v.Keys == w.Keys && forall n | n in v :: w[n] <= v[n] < COUNT_LIMIT
    ensures TotalOf(Lowered(v, w)) + TotalOf(w) == TotalOf(v)
  {
    forall n | n in v ensures Lowered(v, w)[n] == v[n] - w[n] {
      assert Have(w, n) == w[n];
    }
    CurrencyGreedy.TotalsAdd(w, Lowered(v, w), v);
  }

  /** A deposit raises the total by its worth, as long as its count does not wrap. */
  lemma AddConserves(v: Coins, n: nat, count: nat)
    requires n in v && v[n] + count < COUNT_LIMIT
    ensures TotalOf(v[n := (v[n] + count) % COUNT_LIMIT]) == TotalOf(v) + n * count
  {
    TotalUpdated(v, n, v[n] + count);
    CurrencyGreedy.Distributes(n, v[n], count);
  }

  /** What is left of a number in the 32 bits of an amount. */
  function Cut(x: nat): (r: nat)
    ensures r < AMOUNT_LIMIT
  {
    x % AMOUNT_LIMIT
  }

  /** The sum with all coins of one nominal added, in 32-bit arithmetic. */
  function Summed(sum: nat, n: nat, count: nat): (r: nat)
    ensures r < AMOUNT_LIMIT
  {
    Cut(sum + n * Cut(count))
  }

  lemma CutFactor(s: nat, n: nat, c: nat)
    ensures (s % AMOUNT_LIMIT + n * (c % AMOUNT_LIMIT)) % AMOUNT_LIMIT == (s + n * c) % AMOUNT_LIMIT
  {
    var q, r := c / AMOUNT_LIMIT, c % AMOUNT_LIMIT;
    CurrencyGreedy.Distributes(n, q * AMOUNT_LIMIT, r);
    CurrencyGreedy.TimesAssociates(n, q, AMOUNT_LIMIT);
    WholeTurns(s % AMOUNT_LIMIT + n * r, s / AMOUNT_LIMIT + n * q);
    assert s + n * c == s % AMOUNT_LIMIT + n * r + (s / AMOUNT_LIMIT + n * q) * AMOUNT_LIMIT;
  }

  lemma WholeTurns(x: nat, k: nat)
    ensures (x + k * AMOUNT_LIMIT) % AMOUNT_LIMIT == x % AMOUNT_LIMIT
  {}

  lemma CutSum(s: nat, x: nat, rest: nat)
    ensures ((s + x) % AMOUNT_LIMIT + rest) % AMOUNT_LIMIT == ((s + rest) % AMOUNT_LIMIT + x) % AMOUNT_LIMIT
  {
    WholeTurns((s + x) % AMOUNT_LIMIT + rest, (s + x) / AMOUNT_LIMIT);
    WholeTurns((s + rest) % AMOUNT_LIMIT + x, (s + rest) / AMOUNT_LIMIT);
  }

  lemma OneNominalSummed(v: Coins, n: nat, c: nat, sum: nat, next: nat)
    requires n in v && c == v[n] && next == Summed(sum, n, c)
    ensures Cut(next + TotalOf(v - {n})) == Cut(sum + TotalOf(v))
  {
    TotalSplits(v, n);
    SummedRest(sum, n, c, TotalOf(v - {n}));
  }

  lemma SummedRest(sum: nat, n: nat, c: nat, rest: nat)
    ensures Cut(Summed(sum, n, c) + rest) == Cut(sum + (n * c + rest))
  {
    CutFactor(sum + rest, n, c);
    CutSum(sum, n * Cut(c), rest);
  }

  /** todo holds some of the nominals of v, with all their coins. */
  predicate Part(todo: Coins, v: Coins) {
    todo.Keys <= v.Keys && forall n | n in todo :: todo[n] == v[n]
  }

  /** What is summed so far and what is to do make up the total, in 32-bit arithmetic. */
  ghost predicate Summing(sum: nat, todo: Coins, v: Coins) {
    sum < AMOUNT_LIMIT && Cut(sum + TotalOf(todo)) == Cut(TotalOf(v))
  }

  lemma SummingNext(sum: nat, todo: Coins, v: Coins, n: nat, next: nat)
    requires Part(todo, v) && Summing(sum, todo, v) && n in todo && next == Summed(sum, n, v[n])
    ensures Part(todo - {n}, v) && Summing(next, todo - {n}, v)
  {
    OneNominalSummed(todo, n, v[n], sum, next);
  }

  lemma SummingEnds(sum: nat, todo: Coins, v: Coins)
    requires Summing(sum, todo, v) && todo == map[]
    ensures sum == Cut(TotalOf(v))
  {}

  // ---------------------------------------------------------------- the group

  class NominalGroup {
    var values: Coins

    constructor ()
      ensures values == map[]
    {
      values := map[];
    }

    method Copy() returns (g: NominalGroup)
      ensures fresh(g) && g.values == values
    {
      g := new NominalGroup();
      var todo: set<nat> := values.Keys;
      while todo != {}
        invariant fresh(g) && todo <= values.Keys
        invariant g.values == map n | n in values && n !in todo :: values[n]
        decreases |todo|
      {
        var k: nat :| k in todo;
        g.values := g.values[k := values[k]];
        todo := todo - {k};
      }
    }

    method SetValid(valid: seq<nat>)
      modifies this
      ensures values == map n | n in valid :: 0
    {
      values := map[];
      for i := 0 to |valid|
        invariant values == map n | n in valid[..i] :: 0
      {
        values := values[valid[i] := 0];
        assert valid[..i + 1] == valid[..i] + [valid[i]];
      }
      assert valid[..|valid|] == valid;
    }

    /** False is ErrNominalInvalid. */
    method Add(n: nat, count: nat) returns (ok: bool)
      modifies this
      ensures ok == (n in old(values))
      ensures values == if ok then old(values)[n := (old(values)[n] + count) % COUNT_LIMIT] else old(values)
    {
      if n !in values {
        return false;
      }
      values := values[n := (values[n] + count) % COUNT_LIMIT];
      return true;
    }

    method Clear()
      modifies this
      ensures values == map n | n in old(values) :: 0
    {
      var todo: set<nat> := values.Keys;
      while todo != {}
        invariant todo <= values.Keys == old(values.Keys)
        invariant forall n | n in values && n !in todo :: values[n] == 0
        decreases |todo|
      {
        var n: nat :| n in todo;
        values := values[n := 0];
        todo := todo - {n};
      }
    }

    /** The 32-bit total, whatever the order in which the map is walked. */
    method Total() returns (sum: nat)
      ensures sum == Cut(TotalOf(values))
    {
      sum := 0;
      var todo: Coins := values;
      while todo != map[]
        invariant Part(todo, values) && Summing(sum, todo, values)
        decreases |todo|
      {
        var n: nat :| n in todo;
        var next := Summed(sum, n, values[n]);
        SummingNext(sum, todo, values, n, next);
        sum, todo := next, todo - {n};
      }
      SummingEnds(sum, todo, values);
    }

    method Sub(other: NominalGroup)
      modifies this
      ensures values == Lowered(old(values), old(other.values))
    {
      ghost var was, sub := values, other.values;
      var todo: set<nat> := values.Keys;
      while todo != {}
        invariant todo <= values.Keys == was.Keys
        invariant if other == this then sub == was else other.values == sub
        invariant forall n | n in todo :: values[n] == was[n]
        invariant forall n | n in values && n !in todo :: values[n] == Less(was[n], Have(sub, n))
        decreases |todo|
      {
        var n: nat :| n in todo;
        values := values[n := Less(values[n], Have(other.values, n))];
        todo := todo - {n};
      }
    }

    /** Any result that sorting by falling key may have: the map is walked in any order, and
        the sort is not stable. */
    method Order(key: (nat, nat) -> nat) returns (o: seq<nat>)
      ensures IsOrder(o, values, key)
    {
      o := [];
      var todo: set<nat> := values.Keys;
      while todo != {}
        invariant Front(o, todo, values, key)
        decreases |todo|
      {
        ghost var k := LargestKey(values, todo, key);
        var n: nat :| n in todo && forall m | m in todo :: key(n, values[n]) >= key(m, values[m]);
        FrontGrows(o, todo, values, key, n);
        o := o + [n];
        todo := todo - {n};
      }
    }

    /** The first nominal of the order that fits and is there. */
    method ExpendOrdered(order: seq<nat>, max: nat) returns (c: Choice)
      modifies this
      ensures Picked(old(values), Ordered(order), max, c, values, Ordered(order))
      ensures max == 0 ==> values == old(values) && c == if |order| < |values| then OrderTooShort else Chosen(0)
    {
      if |order| < |values| {
        return OrderTooShort;
      }
      if max == 0 {
        return Chosen(0);
      }
      for i := 0 to |order|
        invariant values == old(values)
        invariant FirstFit(values, order, max) == FirstFit(values, order[i..], max)
      {
        assert order[i..][1..] == order[i + 1..];
        if order[i] <= max && Have(values, order[i]) > 0 {
          values := values[order[i] := values[order[i]] - 1];
          return Chosen(order[i]);
        }
      }
      return NoneFits;
    }

    method ExpendLoop(total: nat, strategy: ExpendStrategy) returns (r: Expense, ghost p: Plan)
      requires strategy.Valid()
      modifies this, strategy.Objects()
      ensures Legal(old(strategy.Spec()), old(values), p)
      ensures Ended(Spend(old(values), p, total), r, values)
    {
      strategy.Reset(this);
      p := strategy.PlanOf();
      r := ExpendOn(total, strategy, Spend(values, p, total));
    }

    /** The loop, once the strategy is reset. */
    method ExpendOn(total: nat, strategy: ExpendStrategy, ghost end: Outcome) returns (r: Expense)
      requires strategy.Valid() && Spend(values, strategy.PlanOf(), total) == end
      modifies this, strategy.Objects()
      ensures Ended(end, r, values)
    {
      var amount := total;
      while amount > 0
        invariant Spend(values, strategy.PlanOf(), amount) == end
      {
        var c := ExpendTurn(amount, strategy, end);
        match c
        case NoneFits => return NotEnough;
        case OrderTooShort => return Panicked;
        case Chosen(nominal) =>
          if nominal == 0 {
            return Panicked;
          }
          amount := amount - nominal;
      }
      return Spent;
    }

    /** One coin of an amount, by what it means for how the loop ends. */
    method ExpendTurn(amount: nat, strategy: ExpendStrategy, ghost end: Outcome) returns (c: Choice)
      requires strategy.Valid() && amount > 0 && Spend(values, strategy.PlanOf(), amount) == end
      modifies this, strategy.Objects()
      ensures match c
              case NoneFits => Ended(end, NotEnough, values)
              case OrderTooShort => Ended(end, Panicked, values)
              case Chosen(n) =>
                if n == 0 then Ended(end, Panicked, values)
                else n <= amount && Spend(values, strategy.PlanOf(), amount - n) == end
    {
      ghost var v, plan := values, strategy.PlanOf();
      c := strategy.ExpendOne(this, amount);
      OneSpent(v, plan, amount, c, values, strategy.PlanOf());
    }

    /** A dry run on a copy, and then, to commit, the same again on the group itself.  With a
        decisive strategy it is all or nothing. */
    method Withdraw(a: nat, strategy: ExpendStrategy, commit: bool)
      returns (r: Expense, ghost p: Plan, ghost q: Plan)
      requires strategy.Valid()
      modifies this, strategy.Objects()
      ensures Legal(old(strategy.Spec()), old(values), p) && Legal(old(strategy.Spec()), old(values), q)
      ensures var dry := Spend(old(values), p, a);
              if commit && dry.Paid? then Ended(Spend(old(values), q, a), r, values)
              else Ended(dry, r, dry.left) && values == old(values)
      ensures r == Spent && commit ==> TotalOf(old(values)) == TotalOf(values) + a
      ensures r != Spent && Decisive(old(strategy.Spec()), old(values)) ==> values == old(values)
      ensures values.Keys == old(values.Keys) && forall n | n in values :: values[n] <= old(values)[n]
      ensures strategy.ExpendGenericOrder? && (forall n | n in values :: n > 0) ==> r != Panicked
    {
      ghost var v := values;
      ghost var spec := strategy.Spec();
      var copy := Copy();
      r, p := copy.ExpendLoop(a, strategy);
      q := p;
      if r == Spent && commit {
        r, q := ExpendLoop(a, strategy);
        if Decisive(old(strategy.Spec()), v) {
          DryRunAgrees(old(strategy.Spec()), v, p, q, a);
        }
        SpendConserves(v, q, a);
      }
      if strategy.ExpendGenericOrder? && forall n | n in values :: n > 0 {
        CurrencyTaken.GenericNeverPanics(spec.key, v, p, a);
        CurrencyTaken.GenericNeverPanics(spec.key, v, q, a);
      }
    }

    /** Whether the amount can be withdrawn, largest coins first; Spent stands for true.  It is
        never true of an amount that cannot be paid, and always of one that can when the
        nominals are tame up to it, as when each divides the next larger one. */
    method Contains(a: nat) returns (r: Expense)
      ensures forall o | IsOrder(o, values, ByNominal) :: EndOf(Spend(values, Ordered(o), a)) == r
      ensures r == Spent ==> CurrencyGreedy.Payable(values, a)
      ensures (forall n | n in values :: n > 0) ==> r != Panicked
      ensures forall o | IsOrder(o, values, ByNominal) && CurrencyGreedy.Chain(o) ::
                r == Spent <==> CurrencyGreedy.Payable(values, a)
      ensures forall o | IsOrder(o, values, ByNominal) && AllPositive(o) && CurrencyComplete.Tame(o, a) ::
                r == Spent <==> CurrencyGreedy.Payable(values, a)
    {
      var g := new GenericOrder(ByNominal);
      ghost var p;
      var copy := Copy();
      r, p := copy.ExpendLoop(a, ExpendGenericOrder(g));
      if r == Spent {
        CurrencyGreedy.PaidIsPayable(values, p, a);
      }
      if forall n | n in values :: n > 0 {
        CurrencyTaken.GenericNeverPanics(ByNominal, values, p, a);
      }
      forall o | IsOrder(o, values, ByNominal) ensures Spend(values, Ordered(o), a) == Spend(values, p, a) {
        DryRunAgrees(Generic(ByNominal), values, Ordered(o), p, a);
      }
      forall o | IsOrder(o, values, ByNominal) && CurrencyGreedy.Chain(o)
        ensures r == Spent <==> CurrencyGreedy.Payable(values, a)
      {
        CurrencyGreedy.LeastCountIsOptimal(values, o, a);
      }
      forall o | IsOrder(o, values, ByNominal) && AllPositive(o) && CurrencyComplete.Tame(o, a)
        ensures r == Spent <==> CurrencyGreedy.Payable(values, a)
      {
        CurrencyGreedy.OrderLists(o, values);
        CurrencyComplete.TamePaysPayable(o, values, a);
      }
    }
  }

  /** One turn of the loop: how it ends, or how it goes on. */
  lemma OneSpent(v: Coins, p: Plan, amount: nat, c: Choice, w: Coins, q: Plan)
    requires amount > 0 && Picked(v, p, amount, c, w, q)
    ensures match c
            case NoneFits => Ended(Spend(v, p, amount), NotEnough, w)
            case OrderTooShort => Ended(Spend(v, p, amount), Panicked, w)
            case Chosen(n) =>
              if n == 0 then Ended(Spend(v, p, amount), Panicked, w)
              else n <= amount && Spend(v, p, amount) == Spend(w, q, amount - n)
  {
    ChosenIsThere(v, p, amount);
    if c.Chosen? && c.nominal != 0 {
      SpendTakes(v, p, amount, PickOne(v, p, amount));
    }
  }

  /** nil, ErrNominalCount, or a panic. */
  datatype Expense = Spent | NotEnough | Panicked

  function EndOf(o: Outcome): (r: Expense) {
    match o
    case Paid(_) => Spent
    case Short(_) => NotEnough
    case Panic(_) => Panicked
  }

  predicate Ended(o: Outcome, r: Expense, left: Coins) {
    r == EndOf(o) && left == o.left
  }

  /** Every legal sort is one that Order may give: each of its nominals, in turn, is one that the
      loop may choose next. */
  lemma EveryLegalSortMayBe(o: seq<nat>, v: Coins, key: (nat, nat) -> nat, i: nat)
    requires IsOrder(o, v, key) && i < |o|
    ensures o[i] in v && o[i] !in o[..i]
    ensures forall m | m in v && m !in o[..i] :: key(o[i], v[o[i]]) >= key(m, v[m])
  {
    assert o[i] in o;
    forall m | m in v && m !in o[..i] ensures key(o[i], v[o[i]]) >= key(m, v[m]) {
      assert m in o && o == o[..i] + o[i..];
      var j :| 0 <= j < |o[i..]| && o[i..][j] == m;
      assert o[i + j] == m;
    }
  }

  // ---------------------------------------------------------------- strategies

  /** A sorting strategy; its order is set by Reset. */
  class GenericOrder {
    var order: seq<nat>
    const sortElem: (nat, nat) -> nat

    constructor (key: (nat, nat) -> nat)
      ensures sortElem == key
    {
      sortElem := key;
      order := [];
    }

    method Reset(from: NominalGroup)
      modifies this
      ensures Legal(Generic(sortElem), from.values, Ordered(order))
    {
      order := from.Order(sortElem);
    }
  }

  /** Spends by the counts of another group. */
  class StatisticalOrder {
    var order: seq<nat>
    const stat: NominalGroup

    constructor (group: NominalGroup)
      ensures stat == group
    {
      stat := group;
      order := [];
    }

    method Reset(from: NominalGroup)
      modifies this
      ensures Legal(Statistical(stat.values), from.values, Ordered(order))
    {
      order := stat.Order(ByCount);
    }
  }

  /** Draws which of two strategies takes the next coin.  below(seed, i) says whether draw i of
      the generator with this seed is below the ratio. */
  class Combination {
    const s1: ExpendStrategy
    const s2: ExpendStrategy
    const below: (nat, nat) -> bool
    var seed: nat
    var draws: nat
    ghost const objects: set<object>
    ghost const stats: set<NominalGroup>

    constructor (first: ExpendStrategy, second: ExpendStrategy, b: (nat, nat) -> bool)
      requires first.Valid() && second.Valid() && first.Objects() !! second.Objects()
      ensures s1 == first && s2 == second && below == b && ExpendCombine(this).Valid()
    {
      s1, s2, below := first, second, b;
      seed, draws := 0, 0;
      objects := {this} + first.Objects() + second.Objects();
      stats := first.Stats() + second.Stats();
    }

    method Reset(from: NominalGroup)
      requires ExpendCombine(this).Valid()
      modifies objects
      ensures Legal(old(ExpendCombine(this).Spec()), from.values, ExpendCombine(this).PlanOf())
      ensures seed == TotalOf(from.values) % AMOUNT_LIMIT && draws == 0
      decreases objects, 0
    {
      ghost var v, spec1, spec2 := from.values, s1.Spec(), s2.Spec();
      seed := from.Total();
      draws := 0;
      s1.Reset(from);
      ghost var p1 := s1.PlanOf();
      s2.Reset(from);
      ghost var p2 := s2.PlanOf();
      LegalCombination(below, spec1, spec2, v, seed, p1, p2);
    }

    method ExpendOne(from: NominalGroup, max: nat) returns (c: Choice)
      requires ExpendCombine(this).Valid()
      modifies objects, from
      ensures Picked(old(from.values), old(ExpendCombine(this).PlanOf()), max, c,
                     from.values, ExpendCombine(this).PlanOf())
      decreases objects, 1
    {
      ghost var v, d, p1, p2 := from.values, draws, s1.PlanOf(), s2.PlanOf();
      var first := Draw();
      if first {
        c := ExpendFirst(from, max);
      } else {
        c := ExpendSecond(from, max);
      }
      PickedByPart(v, below, seed, d, p1, p2, max, c, from.values, s1.PlanOf(), s2.PlanOf());
    }

    method Draw() returns (first: bool)
      requires ExpendCombine(this).Valid()
      modifies this`draws
      ensures first == below(seed, old(draws)) && draws == old(draws) + 1
      ensures s1.PlanOf() == old(s1.PlanOf()) && s2.PlanOf() == old(s2.PlanOf())
    {
      first := below(seed, draws);
      draws := draws + 1;
    }

    method ExpendFirst(from: NominalGroup, max: nat) returns (c: Choice)
      requires ExpendCombine(this).Valid()
      modifies s1.Objects(), from
      ensures Picked(old(from.values), old(s1.PlanOf()), max, c, from.values, s1.PlanOf())
      ensures s2.PlanOf() == old(s2.PlanOf())
      decreases objects, 0
    {
      c := s1.ExpendOne(from, max);
    }

    method ExpendSecond(from: NominalGroup, max: nat) returns (c: Choice)
      requires ExpendCombine(this).Valid()
      modifies s2.Objects(), from
      ensures Picked(old(from.values), old(s2.PlanOf()), max, c, from.values, s2.PlanOf())
      ensures s1.PlanOf() == old(s1.PlanOf())
      decreases objects, 0
    {
      c := s2.ExpendOne(from, max);
    }
  }

  lemma LegalCombination(below: (nat, nat) -> bool, s1: Strategy, s2: Strategy, v: Coins, seed: nat, p1: Plan, p2: Plan)
    requires Legal(s1, v, p1) && Legal(s2, v, p2) && seed == Cut(TotalOf(v))
    ensures Legal(Strategy.Combine(below, s1, s2), v, Combined(below, seed, 0, p1, p2))
  {}

  datatype ExpendStrategy =
    | ExpendGenericOrder(g: GenericOrder)
    | ExpendStatistical(s: StatisticalOrder)
    | ExpendCombine(c: Combination)
  {
    /** The objects that Reset and ExpendOne update. */
    ghost function Objects(): (r: set<object>) {
      match this
      case ExpendGenericOrder(g) => {g}
      case ExpendStatistical(s) => {s}
      case ExpendCombine(c) => c.objects
    }

    /** The groups whose statistics are used. */
    ghost function Stats(): (r: set<NominalGroup>) {
      match this
      case ExpendGenericOrder(_) => {}
      case ExpendStatistical(s) => {s.stat}
      case ExpendCombine(c) => c.stats
    }

    /** No object serves two parts of the strategy, and no group is one of its parts. */
    ghost predicate Valid()
      decreases Objects()
    {
      && (forall o | o in Objects() :: !(o is NominalGroup))
      && match this
         case ExpendGenericOrder(_) => true
         case ExpendStatistical(_) => true
         case ExpendCombine(c) =>
           && c !in c.s1.Objects() + c.s2.Objects() && c.s1.Objects() !! c.s2.Objects()
           && c.objects == {c} + c.s1.Objects() + c.s2.Objects() && c.stats == c.s1.Stats() + c.s2.Stats()
           && c.s1.Valid() && c.s2.Valid()
    }

    ghost function Spec(): (r: Strategy)
      requires Valid()
      reads Stats()
      decreases Objects()
    {
      match this
      case ExpendGenericOrder(g) => Generic(g.sortElem)
      case ExpendStatistical(s) => Statistical(s.stat.values)
      case ExpendCombine(c) => Strategy.Combine(c.below, c.s1.Spec(), c.s2.Spec())
    }

    ghost function PlanOf(): (p: Plan)
      requires Valid()
      reads Objects()
      decreases Objects()
    {
      match this
      case ExpendGenericOrder(g) => Ordered(g.order)
      case ExpendStatistical(s) => Ordered(s.order)
      case ExpendCombine(c) => Combined(c.below, c.seed, c.draws, c.s1.PlanOf(), c.s2.PlanOf())
    }

    method Reset(from: NominalGroup)
      requires Valid()
      modifies Objects()
      ensures Legal(old(Spec()), from.values, PlanOf())
      decreases Objects(), 1
    {
      match this
      case ExpendGenericOrder(g) =>
        g.Reset(from);
      case ExpendStatistical(s) =>
        s.Reset(from);
      case ExpendCombine(c) =>
        c.Reset(from);
    }

    /** Takes one coin of at most max, or none. */
    method ExpendOne(from: NominalGroup, max: nat) returns (c: Choice)
      requires Valid()
      modifies Objects(), from
      ensures Picked(old(from.values), old(PlanOf()), max, c, from.values, PlanOf())
      decreases Objects(), 2
    {
      match this
      case ExpendGenericOrder(g) =>
        c := from.ExpendOrdered(g.order, max);
      case ExpendStatistical(s) =>
        c := from.ExpendOrdered(s.order, max);
      case ExpendCombine(combination) =>
        c := combination.ExpendOne(from, max);
    }
  }

  /** One coin was taken as the plan p says, leaving w and the plan q.  For no amount, none is. */
  ghost predicate Picked(v: Coins, p: Plan, max: nat, c: Choice, w: Coins, q: Plan) {
    && c == PickOne(v, p, max).choice
    && q == PickOne(v, p, max).plan
    && if c.Chosen? && max > 0 then Have(v, c.nominal) > 0 && w == TakeOne(v, c.nominal) else w == v
  }

  /** A coin that one part took, by the plan of the combination. */
  lemma PickedByPart(v: Coins, below: (nat, nat) -> bool, seed: nat, draws: nat, p1: Plan, p2: Plan, max: nat,
                     c: Choice, w: Coins, q1: Plan, q2: Plan)
    requires if below(seed, draws) then Picked(v, p1, max, c, w, q1) && q2 == p2
             else Picked(v, p2, max, c, w, q2) && q1 == p1
    ensures Picked(v, Combined(below, seed, draws, p1, p2), max, c, w, Combined(below, seed, draws + 1, q1, q2))
  {
    PickOfParts(v, below, seed, draws, p1, p2, max);
  }

  lemma PickOfParts(v: Coins, below: (nat, nat) -> bool, seed: nat, draws: nat, p1: Plan, p2: Plan, max: nat)
    ensures PickOne(v, Combined(below, seed, draws, p1, p2), max)
         == if below(seed, draws)
            then Pick(PickOne(v, p1, max).choice, Combined(below, seed, draws + 1, PickOne(v, p1, max).plan, p2))
            else Pick(PickOne(v, p2, max).choice, Combined(below, seed, draws + 1, p1, PickOne(v, p2, max).plan))
  {}
}
