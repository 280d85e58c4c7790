/** SQL pattern matching (section 8.5 of ISO/IEC 9075:1992, with MySQL's default escape
    character) and the escaping that makes a user's text literal (storage/mysql/query.go). */
module Like {
  import opened Queries

  /** Backtracking matcher. Two characters are the same when the collation folds them together;
      the wildcards and the escape are recognised before any folding. */
  predicate Matches(s: string, p: string, fold: Folding)
    decreases |p|, |s|
  {
    if p == "" then s == ""
    else if p[0] == '%' then Matches(s, p[1..], fold) || (s != "" && Matches(s[1..], p, fold))
    else if p[0] == '_' then s != "" && Matches(s[1..], p[1..], fold)
    else if p[0] == '\\' && |p| > 1 then s != "" && fold(s[0]) == fold(p[1]) && Matches(s[1..], p[2..], fold)
    else s != "" && fold(s[0]) == fold(p[0]) && Matches(s[1..], p[1..], fold)
  }

  /** What the standard says `%` means: any number of characters may be skipped. */
  lemma {:induction false} PercentSkips(s: string, p: string, fold: Folding)
    ensures Matches(s, "%" + p, fold) <==> exists k | 0 <= k <= |s| :: Matches(s[k..], p, fold)
  {
    var q := "%" + p;
    assert q[1..] == p && s[0..] == s;
    if s != "" {
      PercentSkips(s[1..], p, fold);
      forall k | 0 <= k <= |s[1..]|
        ensures s[1..][k..] == s[k + 1..]
      {}
      if k :| 0 <= k <= |s| && Matches(s[k..], p, fold) {
        if k > 0 {
          assert s[1..][k - 1..] == s[k..];
        }
      }
    }
  }

  function Escape(s: string): string {
    if s == "" then ""
    else (if s[0] == '\\' || s[0] == '%' || s[0] == '_' then ['\\', s[0]] else [s[0]]) + Escape(s[1..])
  }

  /** One escaped character consumes exactly itself. */
  lemma EscapedCharacter(s: string, c: char, p: string, fold: Folding)
    ensures Matches(s, Escape([c]) + p, fold) <==> s != "" && fold(s[0]) == fold(c) && Matches(s[1..], p, fold)
  {
    assert [c][1..] == "" && Escape([c]) == if c == '\\' || c == '%' || c == '_' then ['\\', c] else [c];
    assert (Escape([c]) + p)[|Escape([c])|..] == p;
  }

  lemma FoldHead(s: string, k: nat, fold: Folding)
    requires 0 < k <= |s|
    ensures Fold(s[..k], fold) == [fold(s[0])] + Fold(s[1..][..k - 1], fold)
  {}

  /** An escaped text consumes exactly itself, up to folding. */
  lemma {:induction false} EscapedIsLiteral(s: string, t: string, p: string, fold: Folding)
    ensures Matches(s, Escape(t) + p, fold) <==>
              |t| <= |s| && Fold(s[..|t|], fold) == Fold(t, fold) && Matches(s[|t|..], p, fold)
  {
    if t == "" {
      assert Escape(t) + p == p && s[0..] == s && s[..0] == t;
    } else {
      hide Matches;
      hide Fold;
      assert [t[0]][1..] == "" && Escape(t) == Escape([t[0]]) + Escape(t[1..]);
      assert Escape(t) + p == Escape([t[0]]) + (Escape(t[1..]) + p);
      EscapedCharacter(s, t[0], Escape(t[1..]) + p, fold);
      if s != "" {
        EscapedIsLiteral(s[1..], t[1..], p, fold);
        if |t| <= |s| {
          FoldHead(s, |t|, fold);
          FoldHead(t, |t|, fold);
          assert s[1..][|t| - 1..] == s[|t|..] && t[..|t|] == t && t[1..][..|t| - 1] == t[1..];
          assert Fold(s[..|t|], fold)[0] == fold(s[0]) && Fold(t, fold)[0] == fold(t[0]);
          assert Fold(s[..|t|], fold)[1..] == Fold(s[1..][..|t| - 1], fold) && Fold(t, fold)[1..] == Fold(t[1..], fold);
        }
      }
    }
  }

  lemma AnythingMatchesPercent(s: string, fold: Folding)
    ensures Matches(s, "%", fold)
  {
    PercentSkips(s, "", fold);
    assert "%" + "" == "%";
    assert Matches(s[|s|..], "", fold);
  }

  /** `escapeLike(p) + "%"` matches exactly the strings with prefix p. */
  lemma PrefixPattern(s: string, p: string, fold: Folding)
    ensures Matches(s, Escape(p) + "%", fold) <==> HasPrefix(Fold(s, fold), Fold(p, fold))
  {
    EscapedIsLiteral(s, p, "%", fold);
    if |p| <= |s| {
      AnythingMatchesPercent(s[|p|..], fold);
      assert Fold(s[..|p|], fold) == Fold(s, fold)[..|p|];
    }
  }

  /** `"%" + escapeLike(t) + "%"` matches exactly the strings containing t. */
  lemma ContainsPattern(s: string, t: string, fold: Folding)
    ensures Matches(s, "%" + Escape(t) + "%", fold) <==> Contains(Fold(s, fold), Fold(t, fold))
  {
    var p := Escape(t) + "%";
    assert "%" + Escape(t) + "%" == "%" + p;
    PercentSkips(s, p, fold);
    forall k | 0 <= k <= |s|
      ensures Matches(s[k..], p, fold) <==> ContainsAt(Fold(s, fold), Fold(t, fold), k)
    {
      PrefixPattern(s[k..], t, fold);
      if k + |t| <= |s| {
        assert Fold(s[k..], fold)[..|t|] == Fold(s, fold)[k..k + |t|];
      }
    }
  }
}
