/** Reports of changes: a list that holds exactly one report for every key that changed, in no
    particular order, and what folding such a list into the old state gives. */
module Diffs {
  import opened Wrappers

  /** What changed at a key, if anything. */
  type Change<!K, E> = K -> Option<E>

  /** Among the given keys, the list has exactly one report for every key that changed. */
  ghost predicate Reports<K(!new), E(!new)>(out: seq<E>, change: Change<K, E>, keyOf: E -> K, keys: iset<K>) {
    && (forall e | e in out :: keyOf(e) in keys && change(keyOf(e)) == Some(e))
    && (forall k | k in keys && change(k).Some? :: change(k).value in out)
    && (forall i, j | 0 <= i < j < |out| :: keyOf(out[i]) != keyOf(out[j]))
  }

  /** Every report is filed under the key it is about. */
  ghost predicate Filed<K(!new), E(!new)>(change: Change<K, E>, keyOf: E -> K) {
    forall k | change(k).Some? :: keyOf(change(k).value) == k
  }

  predicate Any<K>(k: K) { true }

  ghost function Every<K(!new)>(): iset<K> {
    iset k: K | Any(k)
  }

  ghost function Among<K(!new)>(keys: set<K>): iset<K> {
    iset k | k in keys
  }

  lemma AmongNext<K(!new)>(all: set<K>, todo: set<K>, k: K)
    requires k in todo && todo <= all
    ensures k !in Among(all - todo) && Among(all - (todo - {k})) == Among(all - todo) + iset{k}
  {}

  function ToList<E>(o: Option<E>): seq<E> {
    if o.Some? then [o.value] else []
  }

  lemma ReportsOne<K(!new), E(!new)>(change: Change<K, E>, keyOf: E -> K, k: K)
    requires Filed(change, keyOf)
    ensures Reports(ToList(change(k)), change, keyOf, iset{k})
  {}

  lemma ReportsJoin<K(!new), E(!new)>(a: seq<E>, b: seq<E>, change: Change<K, E>, keyOf: E -> K, ka: iset<K>,
                                      kb: iset<K>)
    requires Reports(a, change, keyOf, ka) && Reports(b, change, keyOf, kb) && ka !! kb
    ensures Reports(a + b, change, keyOf, ka + kb)
  {
    var out := a + b;
    forall k | k in ka + kb && change(k).Some?
      ensures change(k).value in out
    {
      assert change(k).value in a || change(k).value in b;
    }
    forall i, j | 0 <= i < j < |out|
      ensures keyOf(out[i]) != keyOf(out[j])
    {
      if i < |a| <= j {
        assert out[i] in a && out[j] in b;
      }
    }
  }

  lemma ReportsNext<K(!new), E(!new)>(out: seq<E>, change: Change<K, E>, keyOf: E -> K, keys: iset<K>, k: K)
    requires Reports(out, change, keyOf, keys) && Filed(change, keyOf) && k !in keys
    ensures Reports(out + ToList(change(k)), change, keyOf, keys + iset{k})
  {
    ReportsOne(change, keyOf, k);
    ReportsJoin(out, ToList(change(k)), change, keyOf, keys, iset{k});
  }

  /** Keys that did not change may be added. */
  lemma ReportsMore<K(!new), E(!new)>(out: seq<E>, change: Change<K, E>, keyOf: E -> K, keys: iset<K>, more: iset<K>)
    requires Reports(out, change, keyOf, keys) && keys <= more
    requires forall k | k in more && change(k).Some? :: k in keys
    ensures Reports(out, change, keyOf, more)
  {}

  /** A fold that writes, for each report, one place of a map, or clears it. */
  function Replay<K, E, V>(s: map<K, V>, out: seq<E>, keyOf: E -> K, valueOf: E -> Option<V>): map<K, V> {
    if out == [] then s
    else
      var before := Replay(s, out[..|out| - 1], keyOf, valueOf);
      var e := out[|out| - 1];
      match valueOf(e)
      case None => before - {keyOf(e)}
      case Some(v) => before[keyOf(e) := v]
  }

  function Lookup<K, V>(s: map<K, V>, k: K): Option<V> {
    if k in s then Some(s[k]) else None
  }

  lemma {:induction false} ReplayUntouched<K, E, V>(s: map<K, V>, out: seq<E>, keyOf: E -> K, valueOf: E -> Option<V>,
                                                    k: K)
    requires forall e | e in out :: keyOf(e) != k
    ensures Lookup(Replay(s, out, keyOf, valueOf), k) == Lookup(s, k)
  {
    if out != [] {
      assert out[|out| - 1] in out;
      ReplayUntouched(s, out[..|out| - 1], keyOf, valueOf, k);
    }
  }

  lemma {:induction false} ReplayTouched<K, E, V>(s: map<K, V>, out: seq<E>, keyOf: E -> K, valueOf: E -> Option<V>,
                                                  i: nat)
    requires i < |out| && forall j | 0 <= j < |out| && j != i :: keyOf(out[j]) != keyOf(out[i])
    ensures Lookup(Replay(s, out, keyOf, valueOf), keyOf(out[i])) == valueOf(out[i])
  {
    var last := |out| - 1;
    if i < last {
      assert keyOf(out[last]) != keyOf(out[i]);
      ReplayTouched(s, out[..last], keyOf, valueOf, i);
    }
  }

  /** In whatever order the reports come, replaying them changes exactly the keys that changed,
      to what they changed to. */
  lemma ReplayReports<K(!new), E(!new), V>(s: map<K, V>, out: seq<E>, change: Change<K, E>, keyOf: E -> K,
                                           valueOf: E -> Option<V>, k: K)
    requires Reports(out, change, keyOf, Every()) && Filed(change, keyOf)
    ensures Lookup(Replay(s, out, keyOf, valueOf), k) ==
            match change(k) case None => Lookup(s, k) case Some(e) => valueOf(e)
  {
    if change(k).Some? {
      assert k in Every<K>();
      var i :| 0 <= i < |out| && out[i] == change(k).value;
      ReplayTouched(s, out, keyOf, valueOf, i);
    } else {
      ReplayUntouched(s, out, keyOf, valueOf, k);
    }
  }

  lemma {:induction false} ReplayConcat<K, E, V>(s: map<K, V>, a: seq<E>, b: seq<E>, keyOf: E -> K,
                                                 valueOf: E -> Option<V>)
    ensures Replay(s, a + b, keyOf, valueOf) == Replay(Replay(s, a, keyOf, valueOf), b, keyOf, valueOf)
  {
    if b == [] {
      assert a + b == a;
    } else {
      ReplayConcat(s, a, b[..|b| - 1], keyOf, valueOf);
      assert (a + b)[..|a + b| - 1] == a + b[..|b| - 1];
    }
  }
}
