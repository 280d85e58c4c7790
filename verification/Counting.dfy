/** Counting elements, and tables of counts. */
module Counting {

  function Count<T>(s: seq<T>, p: T -> bool): nat {
    if s == [] then 0
    else Count(s[..|s| - 1], p) + if p(s[|s| - 1]) then 1 else 0
  }

  lemma {:induction false} CountSame<T>(s: seq<T>, p: T -> bool, q: T -> bool)
    requires forall x | x in s :: p(x) == q(x)
    ensures Count(s, p) == Count(s, q)
  {
    if s != [] {
      assert s[|s| - 1] in s;
      CountSame(s[..|s| - 1], p, q);
    }
  }

  lemma {:induction false} CountNone<T>(s: seq<T>, p: T -> bool)
    requires forall x | x in s :: !p(x)
    ensures Count(s, p) == 0
  {
    if s != [] {
      assert s[|s| - 1] in s;
      CountNone(s[..|s| - 1], p);
    }
  }

  /** A condition that implies another counts as much exactly when the other implies it too. */
  lemma {:induction false} CountImplied<T>(s: seq<T>, p: T -> bool, q: T -> bool)
    requires forall x | x in s && p(x) :: q(x)
    ensures Count(s, p) <= Count(s, q)
    ensures Count(s, p) == Count(s, q) <==> forall x | x in s && q(x) :: p(x)
  {
    if s != [] {
      var init, last := s[..|s| - 1], s[|s| - 1];
      assert s == init + [last] && last in s;
      CountImplied(init, p, q);
    }
  }

  lemma {:induction false} CountSplit<T>(s: seq<T>, p: T -> bool, q: T -> bool, r: T -> bool)
    requires forall x | x in s :: (p(x) <==> q(x) || r(x)) && !(q(x) && r(x))
    ensures Count(s, p) == Count(s, q) + Count(s, r)
  {
    if s != [] {
      assert s[|s| - 1] in s;
      CountSplit(s[..|s| - 1], p, q, r);
    }
  }

  lemma {:induction false} CountConcat<T>(a: seq<T>, b: seq<T>, p: T -> bool)
    ensures Count(a + b, p) == Count(a, p) + Count(b, p)
  {
    if b == [] {
      assert a + b == a;
    } else {
      CountConcat(a, b[..|b| - 1], p);
      assert (a + b)[..|a + b| - 1] == a + b[..|b| - 1];
    }
  }

  /** The sum of the counts of a table whose keys satisfy a condition. */
  function Total<K>(table: seq<(K, nat)>, p: K -> bool): nat {
    if table == [] then 0
    else Total(table[..|table| - 1], p) + if p(table[|table| - 1].0) then table[|table| - 1].1 else 0
  }

  ghost predicate HasKey<K>(table: seq<(K, nat)>, k: K) {
    exists i | 0 <= i < |table| :: table[i].0 == k
  }

  ghost predicate DistinctKeys<K>(table: seq<(K, nat)>) {
    forall i, j | 0 <= i < j < |table| :: table[i].0 != table[j].0
  }

  /** The selected elements with a key. */
  function WithKey<T, K(==)>(sel: T -> bool, keyOf: T -> K, k: K): T -> bool {
    x => sel(x) && keyOf(x) == k
  }

  /** The selected elements whose key satisfies a condition. */
  function Through<T, K>(sel: T -> bool, keyOf: T -> K, p: K -> bool): T -> bool {
    x => sel(x) && p(keyOf(x))
  }

  function Onto<T, K>(f: T -> K, p: K -> bool): T -> bool {
    x => p(f(x))
  }

  function Compose<T, K, G>(f: T -> K, g: K -> G): T -> G {
    x => g(f(x))
  }

  /** A table of the selected elements by key: one entry per key, with its count, at least for
      the keys that satisfy a condition. */
  ghost predicate Tabulates<T(!new), K>(table: seq<(K, nat)>, s: seq<T>, sel: T -> bool, keyOf: T -> K, p: K -> bool) {
    && DistinctKeys(table)
    && (forall i | 0 <= i < |table| && p(table[i].0) :: table[i].1 == Count(s, WithKey(sel, keyOf, table[i].0)))
    && (forall x | x in s && sel(x) && p(keyOf(x)) :: HasKey(table, keyOf(x)))
  }

  lemma {:induction false} TotalCounts<T(!new), K(!new)>(table: seq<(K, nat)>, s: seq<T>, sel: T -> bool,
                                                         keyOf: T -> K, p: K -> bool)
    requires DistinctKeys(table)
    requires forall i | 0 <= i < |table| && p(table[i].0) :: table[i].1 == Count(s, WithKey(sel, keyOf, table[i].0))
    ensures Total(table, p) == Count(s, x => Through(sel, keyOf, p)(x) && HasKey(table, keyOf(x)))
  {
    var all := x => Through(sel, keyOf, p)(x) && HasKey(table, keyOf(x));
    if table == [] {
      CountNone(s, all);
    } else {
      var init, k := table[..|table| - 1], table[|table| - 1].0;
      var before := x => Through(sel, keyOf, p)(x) && HasKey(init, keyOf(x));
      var own := x => p(k) && WithKey(sel, keyOf, k)(x);
      assert forall i | 0 <= i < |init| :: init[i] == table[i];
      TotalCounts(init, s, sel, keyOf, p);
      forall x: T
        ensures HasKey(table, keyOf(x)) <==> HasKey(init, keyOf(x)) || keyOf(x) == k
        ensures !(HasKey(init, keyOf(x)) && keyOf(x) == k)
      {}
      CountSplit(s, all, before, own);
      if p(k) {
        CountSame(s, own, WithKey(sel, keyOf, k));
      } else {
        CountNone(s, own);
      }
    }
  }

  /** Summing a table of counts counts the elements. */
  lemma TotalIsCount<T(!new), K(!new)>(table: seq<(K, nat)>, s: seq<T>, sel: T -> bool, keyOf: T -> K, p: K -> bool)
    requires Tabulates(table, s, sel, keyOf, p)
    ensures Total(table, p) == Count(s, Through(sel, keyOf, p))
  {
    TotalCounts(table, s, sel, keyOf, p);
    CountSame(s, x => Through(sel, keyOf, p)(x) && HasKey(table, keyOf(x)), Through(sel, keyOf, p));
  }

  /** SELECT g, SUM(n) ... WHERE cond GROUP BY g: the answer, in whatever order. */
  ghost predicate Grouped<K(!new), G(!new)>(answer: seq<(G, nat)>, table: seq<(K, nat)>, cond: K -> bool,
                                            groupOf: K -> G) {
    && DistinctKeys(answer)
    && (forall i | 0 <= i < |answer| :: answer[i].1 == Total(table, WithKey(cond, groupOf, answer[i].0)))
    && (forall k | HasKey(table, k) && cond(k) :: HasKey(answer, groupOf(k)))
  }

  /** Grouping a table of counts again tabulates the elements by group. */
  lemma GroupedTabulates<T(!new), K(!new), G(!new)>(answer: seq<(G, nat)>, table: seq<(K, nat)>, s: seq<T>,
                                                    every: T -> bool, keyOf: T -> K,
                                                    cond: K -> bool, groupOf: K -> G)
    requires Grouped(answer, table, cond, groupOf) && Tabulates(table, s, every, keyOf, cond) && forall x :: every(x)
    ensures Tabulates(answer, s, Onto(keyOf, cond), Compose(keyOf, groupOf), (g: G) => true)
  {
    var sel, group := Onto(keyOf, cond), Compose(keyOf, groupOf);
    forall i | 0 <= i < |answer|
      ensures answer[i].1 == Count(s, WithKey(sel, group, answer[i].0))
    {
      var inGroup := WithKey(cond, groupOf, answer[i].0);
      TotalIsCount(table, s, every, keyOf, inGroup);
      CountSame(s, Through(every, keyOf, inGroup), WithKey(sel, group, answer[i].0));
    }
  }

  lemma {:induction false} TotalSame<K(!new)>(table: seq<(K, nat)>, p: K -> bool, q: K -> bool)
    requires forall k :: p(k) == q(k)
    ensures Total(table, p) == Total(table, q)
  {
    if table != [] {
      TotalSame(table[..|table| - 1], p, q);
    }
  }

  /** Only what the condition says matters to a grouping. */
  lemma GroupedSame<K(!new), G(!new)>(answer: seq<(G, nat)>, table: seq<(K, nat)>, p: K -> bool, q: K -> bool,
                                      groupOf: K -> G)
    requires Grouped(answer, table, p, groupOf) && forall k :: p(k) == q(k)
    ensures Grouped(answer, table, q, groupOf)
  {
    forall i | 0 <= i < |answer|
      ensures answer[i].1 == Total(table, WithKey(q, groupOf, answer[i].0))
    {
      TotalSame(table, WithKey(p, groupOf, answer[i].0), WithKey(q, groupOf, answer[i].0));
    }
  }

  lemma CountBag<T>(a: seq<T>, x: T, p: T -> bool)
    requires x in a
    ensures var i := IndexIn(a, x);
            Count(a[..i] + a[i + 1..], p) == Count(a, p) - (if p(x) then 1 else 0)
  {
    var i := IndexIn(a, x);
    assert a == a[..i] + ([x] + a[i + 1..]);
    CountConcat(a[..i], [x] + a[i + 1..], p);
    CountConcat([x], a[i + 1..], p);
    CountConcat(a[..i], a[i + 1..], p);
  }

  ghost function IndexIn<T>(a: seq<T>, x: T): (i: nat)
    requires x in a
    ensures i < |a| && a[i] == x
  {
    var i :| 0 <= i < |a| && a[i] == x;
    i
  }

  lemma OneLess<T>(a: multiset<T>, b: multiset<T>, x: T)
    requires a + multiset{x} <= b + multiset{x}
    ensures a <= b
  {
    assert a == (a + multiset{x}) - multiset{x} && b == (b + multiset{x}) - multiset{x};
  }

  /** Elements taken from a list are counted no more than in the list. */
  lemma {:induction false} SubBagCounts<T>(a: seq<T>, b: seq<T>, p: T -> bool)
    requires multiset(a) <= multiset(b)
    ensures Count(a, p) <= Count(b, p)
  {
    if a != [] {
      var init, x := a[..|a| - 1], a[|a| - 1];
      assert a == init + [x] && x in multiset(a);
      assert x in b;
      var i := IndexIn(b, x);
      var less := b[..i] + b[i + 1..];
      assert b == b[..i] + [x] + b[i + 1..];
      OneLess(multiset(init), multiset(less), x);
      SubBagCounts(init, less, p);
      CountBag(b, x, p);
    }
  }

  lemma {:induction false} CountAll<T>(s: seq<T>, p: T -> bool)
    requires forall x | x in s :: p(x)
    ensures Count(s, p) == |s|
  {
    if s != [] {
      assert s[|s| - 1] in s;
      CountAll(s[..|s| - 1], p);
    }
  }

  /** The selected elements with a further property. */
  function AndAlso<T>(sel: T -> bool, p: T -> bool): T -> bool {
    x => sel(x) && p(x)
  }

  function AndNot<T>(sel: T -> bool, p: T -> bool): T -> bool {
    x => sel(x) && !p(x)
  }

  /** As many selected elements as there are, taken from a list, are all of them. */
  lemma WholeBagCounts<T>(a: seq<T>, b: seq<T>, sel: T -> bool, p: T -> bool)
    requires multiset(a) <= multiset(b) && (forall x | x in a :: sel(x)) && |a| == Count(b, sel)
    ensures Count(a, p) == Count(b, AndAlso(sel, p))
  {
    var yes, no := AndAlso(sel, p), AndNot(sel, p);
    SubBagCounts(a, b, yes);
    SubBagCounts(a, b, no);
    CountSplit(a, sel, yes, no);
    CountSplit(b, sel, yes, no);
    CountAll(a, sel);
    CountSame(a, p, yes);
  }
}
