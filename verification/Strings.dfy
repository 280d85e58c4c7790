/** Taking texts apart. */
module Strings {

  /** Pieces of a text between the separators. */
  function SplitAt(s: string, sep: char): (parts: seq<string>)
    ensures |parts| >= 1
  {
    if s == "" then [""]
    else
      var rest := SplitAt(s[1..], sep);
      if s[0] == sep then [""] + rest else [[s[0]] + rest[0]] + rest[1..]
  }

  lemma {:induction false} SplitPlain(s: string, sep: char)
    requires sep !in s
    ensures SplitAt(s, sep) == [s]
  {
    if s != "" {
      assert s[0] in s;
      SplitPlain(s[1..], sep);
      assert [s[0]] + s[1..] == s;
    }
  }

  lemma {:induction false} SplitOnce(a: string, b: string, sep: char)
    requires sep !in a && sep !in b
    ensures SplitAt(a + [sep] + b, sep) == [a, b]
  {
    var s := a + [sep] + b;
    if a == "" {
      assert s[1..] == b;
      SplitPlain(b, sep);
    } else {
      assert a[0] in a && s[1..] == a[1..] + [sep] + b;
      SplitOnce(a[1..], b, sep);
      assert [a[0]] + a[1..] == a;
    }
  }

  /** Two pieces are around the one separator. */
  lemma {:induction false} SplitTwo(s: string, sep: char)
    requires |SplitAt(s, sep)| == 2
    ensures var parts := SplitAt(s, sep); s == parts[0] + [sep] + parts[1] && sep !in parts[0] && sep !in parts[1]
  {
    var rest := SplitAt(s[1..], sep);
    if s[0] == sep {
      SplitOneIs(s[1..], sep);
    } else {
      SplitTwo(s[1..], sep);
    }
    assert s == [s[0]] + s[1..];
  }

  lemma {:induction false} SplitOneIs(s: string, sep: char)
    requires |SplitAt(s, sep)| == 1
    ensures SplitAt(s, sep) == [s] && sep !in s
  {
    if s != "" {
      SplitOneIs(s[1..], sep);
      assert s == [s[0]] + s[1..];
    }
  }

  /** White space and line ends, as the browser trims them. */
  predicate IsBlank(c: char) {
    || '\t' <= c <= '\r' || c == ' ' || c == '\U{00A0}' || c == '\U{1680}' || '\U{2000}' <= c <= '\U{200A}'
    || c == '\U{2028}' || c == '\U{2029}' || c == '\U{202F}' || c == '\U{205F}' || c == '\U{3000}' || c == '\U{FEFF}'
  }

  function TrimStart(s: string): string {
    if s != "" && IsBlank(s[0]) then TrimStart(s[1..]) else s
  }

  function TrimEnd(s: string): string {
    if s != "" && IsBlank(s[|s| - 1]) then TrimEnd(s[..|s| - 1]) else s
  }

  function Trim(s: string): string {
    TrimEnd(TrimStart(s))
  }

  /** A text that trimming leaves alone. */
  predicate Trimmed(s: string) {
    s == "" || (!IsBlank(s[0]) && !IsBlank(s[|s| - 1]))
  }

  lemma {:induction false} TrimStartTrims(s: string)
    ensures TrimStart(s) == "" || !IsBlank(TrimStart(s)[0])
  {
    if s != "" && IsBlank(s[0]) {
      TrimStartTrims(s[1..]);
    }
  }

  lemma {:induction false} TrimEndTrims(s: string)
    ensures TrimEnd(s) <= s && (TrimEnd(s) == "" || !IsBlank(TrimEnd(s)[|TrimEnd(s)| - 1]))
  {
    if s != "" && IsBlank(s[|s| - 1]) {
      TrimEndTrims(s[..|s| - 1]);
    }
  }

  /** Trimming gives a trimmed text, and changes no other text. */
  lemma TrimTrims(s: string)
    ensures Trimmed(Trim(s))
    ensures Trim(s) == s <==> Trimmed(s)
  {
    TrimStartTrims(s);
    TrimEndTrims(TrimStart(s));
  }

  /** The position of the first separator. */
  function IndexOf(s: string, sep: char): int {
    if s == "" then -1
    else if s[0] == sep then 0
    else
      var i := IndexOf(s[1..], sep);
      if i < 0 then -1 else i + 1
  }

  lemma {:induction false} IndexOfFirst(a: string, b: string, sep: char)
    requires sep !in a
    ensures IndexOf(a + [sep] + b, sep) == |a|
  {
    if a != "" {
      assert (a + [sep] + b)[1..] == a[1..] + [sep] + b;
      IndexOfFirst(a[1..], b, sep);
    }
  }

  lemma {:induction false} IndexOfFinds(s: string, sep: char)
    ensures -1 <= IndexOf(s, sep) < |s|
    ensures IndexOf(s, sep) >= 0 ==> s[IndexOf(s, sep)] == sep && sep !in s[..IndexOf(s, sep)]
  {
    if s != "" && s[0] != sep {
      IndexOfFinds(s[1..], sep);
      var i := IndexOf(s[1..], sep);
      if i >= 0 {
        assert s[..i + 1] == [s[0]] + s[1..][..i];
      }
    }
  }
}
