/** Sorting nominals by falling key, largest first, and which of the equal ones comes next. */
module CurrencySort {
  import opened Currency

  lemma {:induction false} LargestKey(v: Coins, s: set<nat>, key: (nat, nat) -> nat) returns (n: nat)
    requires s != {} && s <= v.Keys
    ensures n in s && forall m | m in s :: key(n, v[n]) >= key(m, v[m])
    decreases |s|
  {
    var first: nat :| first in s;
    n := first;
    if s != {n} {
      var k: nat := LargestKey(v, s - {n}, key);
      assert s - {n} + {n} == s;
      n := if key(k, v[k]) > key(n, v[n]) then k else n;
    }
  }

  /** The nominals but those still to do, sorted, and none of those belongs before them. */
  ghost predicate Front(o: seq<nat>, todo: set<nat>, v: Coins, key: (nat, nat) -> nat) {
    && todo <= v.Keys && Distinct(o)
    && (forall n :: n in o <==> n in v && n !in todo)
    && (forall i, j | 0 <= i < j < |o| :: key(o[i], Have(v, o[i])) >= key(o[j], Have(v, o[j])))
    && forall n, m | n in o && m in todo :: key(n, Have(v, n)) >= key(m, Have(v, m))
  }

  lemma FrontGrows(o: seq<nat>, todo: set<nat>, v: Coins, key: (nat, nat) -> nat, n: nat)
    requires Front(o, todo, v, key)
    requires n in todo && forall m | m in todo :: key(n, v[n]) >= key(m, v[m])
    ensures Front(o + [n], todo - {n}, v, key)
  {
    var p := o + [n];
    forall i, j | 0 <= i < j < |p| ensures key(p[i], Have(v, p[i])) >= key(p[j], Have(v, p[j])) {
      assert p[i] == o[i] && p[i] in o;
    }
  }

  /** A sort that has begun can be finished. */
  lemma {:induction false} SortOn(o: seq<nat>, todo: set<nat>, v: Coins, key: (nat, nat) -> nat) returns (r: seq<nat>)
    requires Front(o, todo, v, key)
    ensures IsOrder(r, v, key) && o <= r
    decreases |todo|
  {
    r := o;
    if todo != {} {
      var n := LargestKey(v, todo, key);
      FrontGrows(o, todo, v, key, n);
      r := SortOn(o + [n], todo - {n}, v, key);
    }
  }

  /** A sort up to the nominals with key k. */
  lemma {:induction false} SortUntil(o: seq<nat>, todo: set<nat>, v: Coins, key: (nat, nat) -> nat, k: nat)
    returns (r: seq<nat>, left: set<nat>)
    requires Front(o, todo, v, key)
    ensures Front(r, left, v, key) && left <= todo
    ensures forall n | n in todo && key(n, v[n]) <= k :: n in left
    ensures forall n | n in left :: key(n, v[n]) <= k
    decreases |todo|
  {
    r, left := o, todo;
    if exists n | n in todo :: key(n, v[n]) > k {
      var n := LargestKey(v, todo, key);
      FrontGrows(o, todo, v, key, n);
      r, left := SortUntil(o + [n], todo - {n}, v, key, k);
    }
  }

  /** Of two nominals with the same key either may come first, behind the same others. */
  lemma BothOrders(v: Coins, key: (nat, nat) -> nat, n: nat, m: nat) returns (before: seq<nat>, o: seq<nat>, o': seq<nat>)
    requires n in v && m in v && n != m && key(n, v[n]) == key(m, v[m])
    ensures IsOrder(o, v, key) && IsOrder(o', v, key)
    ensures before + [n] + [m] <= o && before + [m] + [n] <= o'
  {
    var left;
    before, left := SortUntil([], v.Keys, v, key, key(n, v[n]));
    FrontGrows(before, left, v, key, n);
    FrontGrows(before + [n], left - {n}, v, key, m);
    o := SortOn(before + [n] + [m], left - {n} - {m}, v, key);
    FrontGrows(before, left, v, key, m);
    FrontGrows(before + [m], left - {m}, v, key, n);
    o' := SortOn(before + [m] + [n], left - {m} - {n}, v, key);
  }
}
