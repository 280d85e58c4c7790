/** Sequences of sequences, and prefixes. */
module Sequences {

  function Concat<T>(groups: seq<seq<T>>): seq<T> {
    if groups == [] then [] else groups[0] + Concat(groups[1..])
  }

  lemma ConcatTwo<T>(a: seq<T>, b: seq<T>)
    ensures Concat([a, b]) == a + b
  {
    assert [a, b][1..] == [b] && [b][1..] == [];
    assert Concat([b]) == b + [];
  }

  lemma {:induction false} ConcatAppend<T>(groups: seq<seq<T>>, g: seq<T>)
    ensures Concat(groups + [g]) == Concat(groups) + g
  {
    if groups == [] {
      assert Concat([g]) == g + Concat<T>([]);
    } else {
      ConcatAppend(groups[1..], g);
      assert (groups + [g])[1..] == groups[1..] + [g];
    }
  }

  lemma ConcatLast<T>(groups: seq<seq<T>>)
    ensures groups != [] ==> Concat(groups) == Concat(groups[..|groups| - 1]) + groups[|groups| - 1]
  {
    hide Concat;
    if groups != [] {
      var init, last := groups[..|groups| - 1], groups[|groups| - 1];
      assert groups == init + [last];
      ConcatAppend(init, last);
    }
  }

  lemma PrefixOfPrefix<T>(s: seq<T>, i: nat)
    requires i < |s|
    ensures s[..|s| - 1][..i] == s[..i] && s[..|s| - 1][..|s| - 1] == s[..|s| - 1]
  {}

  lemma Prefixes<T>(s: seq<T>, used: nat)
    requires used < |s|
    ensures forall i | 0 <= i <= used :: s[..used + 1][..i] == s[..i]
    ensures forall i | 0 <= i <= used :: s[..used][..i] == s[..i]
  {}
}
