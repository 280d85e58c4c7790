/** The view of the web interface in the URL (web/src/state.ts). A query string is the list of its
    decoded name and value pairs. */
module UrlState {
  import opened Wrappers
  import opened Decimal
  import opened Strings

  const HOUR_MS: real := 3600000.0

  const FILTER_KEYS: seq<string> :=
    ["dc", "service", "node", "check", "kind", "to", "from", "tag", "team", "app", "version", "type", "healthy"]

  const TEXT := "text"

  datatype Filter = Filter(field: string, value: string, negated: bool)

  datatype Range = Preset(ms: real) | Around(at: real, win: real) | Between(from: real, to: real)

  datatype State = State(dc: string, range: Range, filters: seq<Filter>, utc: bool, live: bool, byDatacenter: bool)

  predicate IsText(f: Filter) {
    f.field == TEXT
  }

  /** The lower-casing of the browser, of which only this much matters. */
  type Lowering = string -> string

  ghost predicate KeepsKeys(lower: Lowering) {
    forall key | key in FILTER_KEYS :: lower(key) == key
  }

  // ---- filters ---------------------------------------------------------------

  function FilterString(f: Filter): string {
    (if f.negated then "-" else "") + (if f.field == TEXT then f.value else f.field + ":" + f.value)
  }

  /** What is left after the dash: a known field and a value, or just a text. */
  function ParseRaw(raw: string, negated: bool, lower: Lowering): Filter {
    var i := IndexOf(raw, ':');
    IndexOfFinds(raw, ':');
    if i > 0 && lower(raw[..i]) in FILTER_KEYS && Trim(raw[i + 1..]) != "" then
      Filter(lower(raw[..i]), Trim(raw[i + 1..]), negated)
    else
      Filter(TEXT, raw, false)
  }

  function ParseFilter(text: string, lower: Lowering): Option<Filter> {
    var trimmed := Trim(text);
    if trimmed == "" then None
    else if trimmed[0] == '-' then Some(ParseRaw(trimmed[1..], true, lower))
    else Some(ParseRaw(trimmed, false, lower))
  }

  method ReadFilter(text: string, lower: Lowering) returns (f: Option<Filter>)
    ensures f == ParseFilter(text, lower)
  {
    var raw := Trim(text);
    if raw == "" {
      return None;
    }
    var negated := false;
    if raw[0] == '-' {
      negated := true;
      raw := raw[1..];
    }
    var i := IndexOf(raw, ':');
    IndexOfFinds(raw, ':');
    if i > 0 {
      var field := lower(raw[..i]);
      var value := Trim(raw[i + 1..]);
      if field in FILTER_KEYS && value != "" {
        return Some(Filter(field, value, negated));
      }
    }
    f := Some(Filter(TEXT, raw, false));
  }

  /** A name that begins like no negation and holds no colon. */
  predicate Plain(s: string) {
    s != "" && s[0] != '-' && !IsBlank(s[0]) && ':' !in s
  }

  lemma ShortKeysPlain()
    ensures Plain("dc") && Plain("to") && Plain("tag") && Plain("app")
  {}

  lemma MiddleKeysPlain()
    ensures Plain("node") && Plain("kind") && Plain("from") && Plain("team") && Plain("type") && Plain("check")
  {}

  lemma LongKeysPlain()
    ensures Plain("service") && Plain("version") && Plain("healthy")
  {}

  lemma TextIsNoKey()
    ensures TEXT !in FILTER_KEYS
  {
    assert "node"[0] != 't' && "kind"[0] != 't' && "from"[0] != 't' && "team"[2] != 'x' && "type"[1] != 'e';
  }

  lemma KeysPlain(key: string)
    requires key in FILTER_KEYS
    ensures key != TEXT && Plain(key)
  {
    hide Plain;
    ShortKeysPlain();
    MiddleKeysPlain();
    LongKeysPlain();
    TextIsNoKey();
  }

  predicate NormalFilter(f: Filter) {
    f.field in FILTER_KEYS && f.value != "" && Trimmed(f.value)
  }

  lemma RawParses(f: Filter, lower: Lowering)
    requires NormalFilter(f) && KeepsKeys(lower)
    ensures ParseRaw(f.field + ":" + f.value, f.negated, lower) == f
  {
    KeysPlain(f.field);
    var raw := f.field + [':'] + f.value;
    assert raw == f.field + ":" + f.value;
    IndexOfFirst(f.field, f.value, ':');
    assert raw[..|f.field|] == f.field && raw[|f.field| + 1..] == f.value;
    TrimTrims(f.value);
    hide IndexOf;
    hide Trim;
    hide Plain;
  }

  lemma Ends(f: Filter)
    requires f.field != "" && f.value != ""
    ensures var s := (if f.negated then "-" else "") + (f.field + ":" + f.value);
            && s[0] == (if f.negated then '-' else f.field[0]) && s[|s| - 1] == f.value[|f.value| - 1]
            && s[if f.negated then 1 else 0..] == f.field + ":" + f.value
  {}

  lemma NormalTrimmed(f: Filter)
    requires NormalFilter(f)
    ensures var s := FilterString(f);
            && s != "" && Trim(s) == s && (s[0] == '-' <==> f.negated)
            && s[if f.negated then 1 else 0..] == f.field + ":" + f.value
  {
    KeysPlain(f.field);
    Ends(f);
    var s := FilterString(f);
    TrimTrims(s);
    assert !IsBlank('-');
    hide IsBlank;
    hide Trim;
  }

  lemma NormalParses(f: Filter, lower: Lowering)
    requires NormalFilter(f) && KeepsKeys(lower)
    ensures ParseFilter(FilterString(f), lower) == Some(f)
  {
    NormalTrimmed(f);
    RawParses(f, lower);
    hide Trim;
    hide FilterString;
    hide ParseRaw;
    var s := FilterString(f);
    assert s[0..] == s;
  }

  /** A filter chip survives the URL exactly when its field is known and its value is not blank at
      either end; colons, stars and dashes inside the value do not matter. */
  lemma FilterRoundTrip(f: Filter, lower: Lowering)
    requires !IsText(f) && KeepsKeys(lower)
    ensures ParseFilter(FilterString(f), lower) == Some(f) <==> NormalFilter(f)
    ensures ParseFilter(FilterString(f), lower).Some?
  {
    var s := FilterString(f);
    assert s[if f.negated then 1 + |f.field| else |f.field|] == ':';
    HasColon(s);
    ParsedNormal(s, lower);
    hide FilterString;
    if NormalFilter(f) {
      NormalParses(f, lower);
    }
    hide NormalFilter;
  }

  /** What parses as a chip is a normal one. */
  lemma ParsedNormal(text: string, lower: Lowering)
    ensures ParseFilter(text, lower).Some? && ParseFilter(text, lower).value.field != TEXT ==>
              NormalFilter(ParseFilter(text, lower).value)
  {
    var trimmed := Trim(text);
    if trimmed != "" {
      RawNormal(trimmed, false, lower);
      RawNormal(trimmed[1..], true, lower);
    }
    hide ParseRaw;
    hide NormalFilter;
  }

  /** A text is a chip exactly when it is, but for blanks at the ends and a dash, a known field in any
      case, a colon, and a value that is not blank; otherwise all of it but the dash is searched for. */
  lemma ParsedIs(text: string, lower: Lowering)
    ensures ParseFilter(text, lower).None? <==> Trim(text) == ""
    ensures Trim(text) != "" ==>
              var dash := Trim(text)[0] == '-';
              var raw := if dash then Trim(text)[1..] else Trim(text);
              var f := ParseFilter(text, lower).value;
              && (f.field in FILTER_KEYS ==>
                    exists name, rest :: Splits(raw, name, rest) && f == Filter(lower(name), Trim(rest), dash))
              && (f.field !in FILTER_KEYS ==> f == Filter(TEXT, raw, false))
              && (f.field in FILTER_KEYS <==>
                    exists name, rest :: Splits(raw, name, rest) && lower(name) in FILTER_KEYS && Trim(rest) != "")
  {
    TextIsNoKey();
    var trimmed := Trim(text);
    if trimmed != "" {
      var raw := if trimmed[0] == '-' then trimmed[1..] else trimmed;
      RawIs(raw, trimmed[0] == '-', lower);
    }
    hide ParseRaw;
    hide Trim;
    hide Splits;
  }

  /** A name that is not empty and holds no colon, a colon, and the rest. */
  ghost predicate Splits(raw: string, name: string, rest: string) {
    raw == name + ":" + rest && name != "" && ':' !in name
  }

  lemma RawIs(raw: string, negated: bool, lower: Lowering)
    ensures var f := ParseRaw(raw, negated, lower);
            && (f.field in FILTER_KEYS ==>
                  exists name, rest :: Splits(raw, name, rest) && f == Filter(lower(name), Trim(rest), negated))
            && (f.field !in FILTER_KEYS ==> f == Filter(TEXT, raw, false))
            && (f.field in FILTER_KEYS <==>
                  exists name, rest :: Splits(raw, name, rest) && lower(name) in FILTER_KEYS && Trim(rest) != "")
  {
    TextIsNoKey();
    var i := IndexOf(raw, ':');
    IndexOfFinds(raw, ':');
    if i > 0 {
      assert raw == raw[..i] + ":" + raw[i + 1..];
      assert Splits(raw, raw[..i], raw[i + 1..]);
    }
    forall name, rest | Splits(raw, name, rest)
      ensures i == |name| && name == raw[..i] && rest == raw[i + 1..]
    {
      assert name + ":" + rest == name + [':'] + rest;
      IndexOfFirst(name, rest, ':');
    }
    hide Trim;
    hide IndexOf;
  }

  lemma RawNormal(raw: string, negated: bool, lower: Lowering)
    ensures ParseRaw(raw, negated, lower).field != TEXT ==> NormalFilter(ParseRaw(raw, negated, lower))
  {
    var i := IndexOf(raw, ':');
    IndexOfFinds(raw, ':');
    if i > 0 {
      TrimTrims(raw[i + 1..]);
    }
  }

  lemma {:induction false} KeepsColon(s: string)
    requires ':' in s
    ensures ':' in TrimStart(s) && ':' in TrimEnd(s)
    decreases |s|
  {
    if IsBlank(s[0]) {
      assert s == [s[0]] + s[1..];
      KeepsColon(s[1..]);
    }
    if IsBlank(s[|s| - 1]) {
      assert s == s[..|s| - 1] + [s[|s| - 1]];
      KeepsColon(s[..|s| - 1]);
    }
  }

  lemma HasColon(s: string)
    requires ':' in s
    ensures Trim(s) != ""
  {
    KeepsColon(s);
    KeepsColon(TrimStart(s));
  }

  // ---- ranges ----------------------------------------------------------------

  /** Rounding to the nearest integer, halves up. */
  function Round(x: real): int {
    (x + 0.5).Floor
  }

  lemma RoundNearest(x: real)
    ensures Round(x) as real - 0.5 <= x < Round(x) as real + 0.5
  {}

  /** How the browser prints numbers and reads them back; reading gives nothing for what is not a
      number. */
  datatype Numerals = Numerals(print_: real -> string, read: string -> Option<real>)

  /** Printed numbers hold no separator and are read back as themselves; this is promised of the
      numbers that the browser has. */
  ghost predicate Faithful(n: Numerals, numbers: real -> bool) {
    forall x | numbers(x) ::
      n.read(n.print_(x)) == Some(x) && n.print_(x) != "" && ':' !in n.print_(x) && ',' !in n.print_(x)
  }

  /** The number a text spells, as far as decimal integers go; a blank text is zero. */
  function Integer(text: string): Option<real> {
    var s := Trim(text);
    var body := if s != "" && (s[0] == '-' || s[0] == '+') then s[1..] else s;
    if s == "" then Some(0.0)
    else if body == "" || !AllDigits(body) then None
    else
      var v: int := Value(body);
      Some((if s[0] == '-' then -v else v) as real)
  }

  const INTEGERS := Numerals((x: real) => Format(x.Floor), (s: string) => Integer(s))

  /** Whole numbers printed in decimal are such numerals. */
  lemma IntegersFaithful(numbers: real -> bool)
    requires forall x | numbers(x) :: x == x.Floor as real
    ensures Faithful(INTEGERS, numbers)
  {
    hide Format;
    hide Integer;
    forall x | numbers(x)
      ensures INTEGERS.read(INTEGERS.print_(x)) == Some(x)
      ensures INTEGERS.print_(x) != "" && ':' !in INTEGERS.print_(x) && ',' !in INTEGERS.print_(x)
    {
      IntegerFormat(x.Floor);
      FormatPlain(x.Floor);
    }
  }

  lemma IntegerFormat(n: int)
    ensures Integer(Format(n)) == Some(n as real)
  {
    FormatTrimmed(n);
    hide Digits;
    hide Value;
    hide Trim;
    DigitsValue(if n < 0 then -n else n);
    if n < 0 {
      assert Format(n)[1..] == Digits(-n);
    } else {
      assert IsDigit(Digits(n)[0]);
    }
  }

  lemma FormatTrimmed(n: int)
    ensures Trim(Format(n)) == Format(n)
  {
    FormatHasNoColon(n);
    hide Format;
    TrimTrims(Format(n));
  }

  lemma FormatPlain(n: int)
    ensures Format(n) != "" && ':' !in Format(n) && ',' !in Format(n)
  {
    hide Format;
    FormatHasNoColon(n);
  }

  /** Bounds set by hand may fall between milliseconds and are rounded. */
  function SerializeRange(r: Range, n: Numerals): string {
    match r
    case Preset(ms) => "p:" + n.print_(ms)
    case Around(at, win) => "m:" + n.print_(at) + "," + n.print_(win)
    case Between(from, to) => "a:" + n.print_(Round(from) as real) + "," + n.print_(Round(to) as real)
  }

  const DEFAULT := Preset(HOUR_MS)

  function ParseRange(s: Option<string>, n: Numerals): Range {
    if s.None? || s.value == "" then DEFAULT
    else
      var parts := SplitAt(s.value, ':');
      var rest := if |parts| > 1 then parts[1] else "";
      var numbers := SplitAt(rest, ',');
      var first := n.read(numbers[0]);
      var second := if |numbers| == 2 then n.read(numbers[1]) else None;
      if parts[0] == "p" then
        if first.Some? && first.value > 0.0 then Preset(first.value) else DEFAULT
      else if parts[0] == "m" && first.Some? && second.Some? then Around(first.value, second.value)
      else if parts[0] == "a" && first.Some? && second.Some? && second.value > first.value then
        Between(first.value, second.value)
      else DEFAULT
  }

  /** The numbers of a range are numbers of the browser, also once rounded. */
  predicate HasNumbers(r: Range, numbers: real -> bool) {
    match r
    case Preset(ms) => numbers(ms)
    case Around(at, win) => numbers(at) && numbers(win)
    case Between(from, to) => numbers(Round(from) as real) && numbers(Round(to) as real)
  }

  predicate NormalRange(r: Range) {
    match r
    case Preset(ms) => ms > 0.0
    case Around(_, _) => true
    case Between(from, to) => from == Round(from) as real && to == Round(to) as real && from < to
  }

  /** Reading back two numbers. */
  lemma PairRead(kind: char, a: string, b: string)
    requires kind != ':' && ':' !in a && ',' !in a && ':' !in b && ',' !in b
    ensures var s := [kind] + ":" + a + "," + b;
            SplitAt(s, ':') == [[kind], a + "," + b] && SplitAt(a + "," + b, ',') == [a, b]
  {
    hide SplitAt;
    var rest := a + "," + b;
    assert [kind] + ":" + a + "," + b == [kind] + [':'] + rest;
    SplitOnce([kind], rest, ':');
    SplitOnce(a, b, ',');
  }

  /** What comes back: positive presets, all windows around a point, and bounds rounded to the
      millisecond if they stay in order; anything else becomes the default. */
  lemma RangeReads(r: Range, n: Numerals, numbers: real -> bool)
    requires Faithful(n, numbers) && HasNumbers(r, numbers)
    ensures ParseRange(Some(SerializeRange(r, n)), n) ==
            match r
            case Preset(ms) => if ms > 0.0 then r else DEFAULT
            case Around(_, _) => r
            case Between(from, to) =>
              if Round(from) < Round(to) then Between(Round(from) as real, Round(to) as real) else DEFAULT
  {
    hide SplitAt;
    hide Round;
    match r
    case Preset(ms) =>
      var s := n.print_(ms);
      assert "p:" + s == "p" + [':'] + s;
      SplitOnce("p", s, ':');
      SplitPlain(s, ',');
    case Around(at, win) =>
      assert ['m'] == "m" && "m"[0] != "p"[0];
      assert SerializeRange(r, n) == ['m'] + ":" + n.print_(at) + "," + n.print_(win);
      PairRead('m', n.print_(at), n.print_(win));
    case Between(from, to) =>
      var a, b := n.print_(Round(from) as real), n.print_(Round(to) as real);
      assert ['a'] == "a" && "a"[0] != "p"[0] && "a"[0] != "m"[0];
      assert SerializeRange(r, n) == ['a'] + ":" + a + "," + b;
      PairRead('a', a, b);
  }

  lemma RangeRoundTrip(r: Range, n: Numerals, numbers: real -> bool)
    requires Faithful(n, numbers) && HasNumbers(r, numbers)
    ensures ParseRange(Some(SerializeRange(r, n)), n) == r <==> NormalRange(r)
  {
    hide ParseRange;
    hide SerializeRange;
    hide Faithful;
    RangeReads(r, n, numbers);
  }

  /** Whatever is read is a positive preset, a window, or ordered bounds; nothing reads as an hour. */
  lemma RangeParsed(s: Option<string>, n: Numerals)
    ensures match ParseRange(s, n)
            case Preset(ms) => ms > 0.0
            case Around(_, _) => true
            case Between(from, to) => from < to
    ensures s.None? || s.value == "" ==> ParseRange(s, n) == Preset(3600000.0)
  {
    hide SplitAt;
  }

  // ---- the query string ------------------------------------------------------

  type Params = seq<(string, string)>

  function Get(p: Params, name: string): Option<string> {
    if p == [] then None else if p[0].0 == name then Some(p[0].1) else Get(p[1..], name)
  }

  function GetAll(p: Params, name: string): seq<string> {
    if p == [] then [] else (if p[0].0 == name then [p[0].1] else []) + GetAll(p[1..], name)
  }

  function Without(p: Params, name: string): Params {
    if p == [] then [] else (if p[0].0 == name then [] else [p[0]]) + Without(p[1..], name)
  }

  /** Replaces the first pair of the name and removes its others, or adds one. */
  function Set(p: Params, name: string, value: string): Params {
    if p == [] then [(name, value)]
    else if p[0].0 == name then [(name, value)] + Without(p[1..], name)
    else [p[0]] + Set(p[1..], name, value)
  }

  lemma {:induction false} WithoutKeeps(p: Params, name: string, other: string)
    requires other != name
    ensures Get(Without(p, name), other) == Get(p, other) && GetAll(Without(p, name), other) == GetAll(p, other)
  {
    if p != [] {
      WithoutKeeps(p[1..], name, other);
      if p[0].0 == name {
        assert [] + Without(p[1..], name) == Without(p[1..], name);
        assert [] + GetAll(p[1..], other) == GetAll(p[1..], other);
      } else {
        assert Without(p, name)[1..] == Without(p[1..], name);
      }
    }
  }

  lemma {:induction false} SetReads(p: Params, name: string, value: string, other: string)
    ensures Get(Set(p, name, value), name) == Some(value)
    ensures other != name ==>
              && Get(Set(p, name, value), other) == Get(p, other)
              && GetAll(Set(p, name, value), other) == GetAll(p, other)
  {
    if p == [] {
    } else if p[0].0 == name {
      if other != name {
        WithoutKeeps(p[1..], name, other);
        assert Set(p, name, value)[1..] == Without(p[1..], name);
        assert [] + GetAll(p[1..], other) == GetAll(p[1..], other);
      }
    } else {
      SetReads(p[1..], name, value, other);
      assert Set(p, name, value)[1..] == Set(p[1..], name, value);
    }
  }

  lemma {:induction false} AppendReads(p: Params, name: string, value: string, other: string)
    ensures GetAll(p + [(name, value)], other) == GetAll(p, other) + if name == other then [value] else []
    ensures other != name ==> Get(p + [(name, value)], other) == Get(p, other)
  {
    if p == [] {
    } else {
      AppendReads(p[1..], name, value, other);
      assert (p + [(name, value)])[1..] == p[1..] + [(name, value)];
    }
  }

  // ---- the whole state -------------------------------------------------------

  function WithFilters(p: Params, filters: seq<Filter>): Params {
    if filters == [] then p
    else
      var f := filters[|filters| - 1];
      var before := WithFilters(p, filters[..|filters| - 1]);
      if IsText(f) then Set(before, "q", f.value) else before + [("f", FilterString(f))]
  }

  function WithOption(p: Params, on: bool, name: string, value: string): Params {
    if on then Set(p, name, value) else p
  }

  function StateToSearch(s: State, n: Numerals): Params {
    var p := WithFilters(Set(Set([], "dc", s.dc), "r", SerializeRange(s.range, n)), s.filters);
    WithOption(WithOption(WithOption(p, s.utc, "tz", "utc"), !s.live, "live", "0"), s.byDatacenter, "s", "dc")
  }

  function ParseFilters(raw: seq<string>, lower: Lowering): seq<Filter> {
    if raw == [] then []
    else
      var f := ParseFilter(raw[|raw| - 1], lower);
      ParseFilters(raw[..|raw| - 1], lower) + if f.Some? then [f.value] else []
  }

  function OrElse(s: Option<string>, other: string): string {
    if s.Some? && s.value != "" then s.value else other
  }

  function ParseState(p: Params, localDc: string, lower: Lowering, n: Numerals): State {
    var q := OrElse(Get(p, "q"), "");
    State(OrElse(Get(p, "dc"), localDc),
          ParseRange(Get(p, "r"), n),
          ParseFilters(GetAll(p, "f"), lower) + if q != "" then [Filter(TEXT, q, false)] else [],
          Get(p, "tz") == Some("utc"),
          Get(p, "live") != Some("0"),
          Get(p, "s") == Some("dc"))
  }

  method WriteSearch(s: State, n: Numerals) returns (p: Params)
    ensures p == StateToSearch(s, n)
  {
    p := Set(Set([], "dc", s.dc), "r", SerializeRange(s.range, n));
    ghost var start := p;
    for i := 0 to |s.filters|
      invariant p == WithFilters(start, s.filters[..i])
    {
      assert s.filters[..i + 1][..i] == s.filters[..i];
      var f := s.filters[i];
      if IsText(f) {
        p := Set(p, "q", f.value);
      } else {
        p := p + [("f", FilterString(f))];
      }
    }
    assert s.filters[..|s.filters|] == s.filters;
    if s.utc {
      p := Set(p, "tz", "utc");
    }
    if !s.live {
      p := Set(p, "live", "0");
    }
    if s.byDatacenter {
      p := Set(p, "s", "dc");
    }
  }

  method ReadState(p: Params, localDc: string, lower: Lowering, n: Numerals) returns (s: State)
    ensures s == ParseState(p, localDc, lower, n)
  {
    hide ParseFilter;
    hide ParseRange;
    hide Get;
    hide GetAll;
    var filters: seq<Filter> := [];
    var raw := GetAll(p, "f");
    for i := 0 to |raw|
      invariant filters == ParseFilters(raw[..i], lower)
    {
      assert raw[..i + 1][..i] == raw[..i];
      var f := ReadFilter(raw[i], lower);
      if f.Some? {
        filters := filters + [f.value];
      }
    }
    assert raw[..|raw|] == raw;
    var q := Get(p, "q");
    if q.Some? && q.value != "" {
      filters := filters + [Filter(TEXT, q.value, false)];
    }
    s := State(OrElse(Get(p, "dc"), localDc), ParseRange(Get(p, "r"), n), filters,
               Get(p, "tz") == Some("utc"), Get(p, "live") != Some("0"), Get(p, "s") == Some("dc"));
  }

  /** The chips of a list of filters. */
  function Chips(filters: seq<Filter>): seq<Filter> {
    if filters == [] then []
    else
      var f := filters[|filters| - 1];
      Chips(filters[..|filters| - 1]) + if IsText(f) then [] else [f]
  }

  /** The last text filter, which is the one the URL keeps. */
  function LastText(filters: seq<Filter>): Option<string> {
    if filters == [] then None
    else
      var f := filters[|filters| - 1];
      if IsText(f) then Some(f.value) else LastText(filters[..|filters| - 1])
  }

  function Written(chips: seq<Filter>): seq<string> {
    if chips == [] then [] else Written(chips[..|chips| - 1]) + [FilterString(chips[|chips| - 1])]
  }

  lemma {:induction false} FiltersWritten(p: Params, filters: seq<Filter>, other: string)
    requires Get(p, "q") == None && GetAll(p, "f") == []
    ensures var r := WithFilters(p, filters);
            && Get(r, "q") == LastText(filters)
            && GetAll(r, "f") == Written(Chips(filters))
            && (other != "q" && other != "f" ==> Get(r, other) == Get(p, other))
  {
    if filters != [] {
      var init, f := filters[..|filters| - 1], filters[|filters| - 1];
      FiltersWritten(p, init, other);
      var before := WithFilters(p, init);
      if IsText(f) {
        SetReads(before, "q", f.value, other);
        SetReads(before, "q", f.value, "f");
        assert Chips(init) + [] == Chips(init);
      } else {
        AppendReads(before, "f", FilterString(f), other);
        AppendReads(before, "f", FilterString(f), "q");
        AppendReads(before, "f", FilterString(f), "f");
        assert (Chips(init) + [f])[..|Chips(init)|] == Chips(init);
      }
    }
  }

  /** How many filters there are before a text at the end, if there is one. */
  function ChipCount(filters: seq<Filter>): nat {
    if filters != [] && IsText(filters[|filters| - 1]) then |filters| - 1 else |filters|
  }

  /** Normal chips and then at most one text, which is neither empty nor negated. */
  predicate NormalFilters(filters: seq<Filter>) {
    && (forall f | f in filters[..ChipCount(filters)] :: NormalFilter(f))
    && (ChipCount(filters) < |filters| ==> filters[|filters| - 1].value != "" && !filters[|filters| - 1].negated)
  }

  lemma {:induction false} ChipsRead(chips: seq<Filter>, lower: Lowering)
    requires KeepsKeys(lower) && forall f | f in chips :: !IsText(f)
    ensures |ParseFilters(Written(chips), lower)| == |chips|
    ensures forall i | 0 <= i < |chips| :: ParseFilter(FilterString(chips[i]), lower).Some?
    ensures forall i | 0 <= i < |chips| ::
              ParseFilters(Written(chips), lower)[i] == ParseFilter(FilterString(chips[i]), lower).value
  {
    hide IsText;
    hide ParseFilter;
    hide FilterString;
    if chips != [] {
      var init, f := chips[..|chips| - 1], chips[|chips| - 1];
      assert f in chips && forall x | x in init :: x in chips;
      ChipsRead(init, lower);
      FilterRoundTrip(f, lower);
      assert Written(chips)[..|Written(chips)| - 1] == Written(init);
    }
  }

  lemma {:induction false} NoTextInChips(filters: seq<Filter>)
    ensures forall f | f in Chips(filters) :: !IsText(f)
  {
    hide IsText;
    if filters != [] {
      NoTextInChips(filters[..|filters| - 1]);
    }
  }

  lemma {:induction false} ChipsFewer(filters: seq<Filter>)
    ensures |Chips(filters)| <= |filters|
    ensures LastText(filters) == None <==> |Chips(filters)| == |filters|
    ensures LastText(filters) == None ==> forall i | 0 <= i < |filters| :: !IsText(filters[i])
  {
    hide IsText;
    if filters != [] {
      ChipsFewer(filters[..|filters| - 1]);
    }
  }

  /** The filters that come back. */
  function Reread(filters: seq<Filter>, lower: Lowering): seq<Filter> {
    var q := OrElse(LastText(filters), "");
    ParseFilters(Written(Chips(filters)), lower) + if q != "" then [Filter(TEXT, q, false)] else []
  }

  lemma NormalIsNoText(f: Filter)
    requires NormalFilter(f)
    ensures !IsText(f)
  {
    KeysPlain(f.field);
  }

  lemma ChipsRoundTrip(chips: seq<Filter>, lower: Lowering)
    requires KeepsKeys(lower) && forall f | f in chips :: !IsText(f)
    ensures |ParseFilters(Written(chips), lower)| == |chips|
    ensures ParseFilters(Written(chips), lower) == chips <==> forall f | f in chips :: NormalFilter(f)
  {
    hide IsText;
    ChipsRead(chips, lower);
    hide ParseFilter;
    hide FilterString;
    hide NormalFilter;
    hide Written;
    hide ParseFilters;
    forall i | 0 <= i < |chips|
      ensures ParseFilters(Written(chips), lower)[i] == chips[i] <==> NormalFilter(chips[i])
    {
      assert chips[i] in chips;
      FilterRoundTrip(chips[i], lower);
    }
  }

  lemma {:induction false} OnlyChips(filters: seq<Filter>)
    requires forall f | f in filters :: !IsText(f)
    ensures Chips(filters) == filters && LastText(filters) == None
  {
    hide IsText;
    if filters != [] {
      var init, f := filters[..|filters| - 1], filters[|filters| - 1];
      assert filters == init + [f];
      OnlyChips(init);
    }
  }

  lemma ChipsAre(filters: seq<Filter>)
    ensures |Chips(filters)| <= |filters|
    ensures |Chips(filters)| == |filters| <==> LastText(filters) == None
    ensures |Chips(filters)| == |filters| ==> Chips(filters) == filters
  {
    hide IsText;
    hide Chips;
    hide LastText;
    ChipsFewer(filters);
    if LastText(filters) == None {
      OnlyChips(filters);
    }
  }

  /** Chips followed by one text. */
  lemma ChipsThenText(chips: seq<Filter>, text: Filter)
    requires IsText(text) && forall f | f in chips :: !IsText(f)
    ensures Chips(chips + [text]) == chips && LastText(chips + [text]) == Some(text.value)
  {
    hide IsText;
    assert (chips + [text])[..|chips|] == chips;
    OnlyChips(chips);
  }

  lemma NormalParts(filters: seq<Filter>)
    requires NormalFilters(filters)
    ensures forall f | f in filters[..ChipCount(filters)] :: NormalFilter(f) && !IsText(f)
    ensures ChipCount(filters) == |filters| ==> filters[..ChipCount(filters)] == filters
    ensures ChipCount(filters) < |filters| ==>
              var text := filters[|filters| - 1];
              && filters == filters[..ChipCount(filters)] + [text] && text == Filter(TEXT, text.value, false)
              && text.value != "" && IsText(text)
  {
    forall f | f in filters[..ChipCount(filters)]
      ensures !IsText(f)
    {
      NormalIsNoText(f);
    }
    hide NormalFilter;
  }

  lemma NormalReread(filters: seq<Filter>, lower: Lowering)
    requires KeepsKeys(lower) && NormalFilters(filters)
    ensures Reread(filters, lower) == filters
  {
    hide NormalFilter;
    hide Written;
    hide ParseFilters;
    hide Chips;
    hide LastText;
    hide IsText;
    NormalParts(filters);
    hide NormalFilters;
    var chips := filters[..ChipCount(filters)];
    ChipsRoundTrip(chips, lower);
    if ChipCount(filters) == |filters| {
      OnlyChips(filters);
      hide ChipCount;
      assert chips + [] == filters;
    } else {
      ChipsThenText(chips, filters[|filters| - 1]);
      hide ChipCount;
    }
  }

  lemma RereadNormal(filters: seq<Filter>, lower: Lowering)
    requires KeepsKeys(lower) && Reread(filters, lower) == filters
    ensures NormalFilters(filters)
  {
    ChipsAre(filters);
    NoTextInChips(filters);
    var chips, q := Chips(filters), OrElse(LastText(filters), "");
    ChipsRoundTrip(chips, lower);
    hide NormalFilter;
    hide Written;
    hide ParseFilters;
    if LastText(filters) == None {
      NoTextAtEnd(filters);
      hide IsText;
      hide Chips;
      assert chips == filters && filters[..|filters|] == filters;
      assert chips + [] == chips;
    } else {
      var n := |filters|;
      var text := Filter(TEXT, q, false);
      assert |chips| == n - 1 && q != "";
      assert filters == ParseFilters(Written(chips), lower) + [text];
      assert filters[n - 1] == text;
      assert Chips(filters) == Chips(filters[..n - 1]) + [];
      ChipsAre(filters[..n - 1]);
      assert ChipCount(filters) == n - 1;
      hide IsText;
      hide Chips;
      assert filters[..n - 1] == chips;
      assert filters[..n - 1] == ParseFilters(Written(chips), lower);
    }
  }

  lemma NoTextAtEnd(filters: seq<Filter>)
    requires LastText(filters) == None
    ensures ChipCount(filters) == |filters|
  {}

  /** A view survives the URL exactly when it names its datacenter (or there is none to fall back
      on), its range is normal, and its filters are. */
  lemma StateRoundTrip(s: State, localDc: string, lower: Lowering, n: Numerals, numbers: real -> bool)
    requires KeepsKeys(lower) && Faithful(n, numbers) && HasNumbers(s.range, numbers)
    ensures ParseState(StateToSearch(s, n), localDc, lower, n) == s <==>
            (s.dc != "" || localDc == "") && NormalRange(s.range) && NormalFilters(s.filters)
  {
    StateReads(s, localDc, lower, n);
    hide ParseState;
    hide StateToSearch;
    hide NormalFilters;
    hide NormalRange;
    RangeRoundTrip(s.range, n, numbers);
    hide ParseRange;
    hide SerializeRange;
    if NormalFilters(s.filters) {
      NormalReread(s.filters, lower);
    }
    if Reread(s.filters, lower) == s.filters {
      RereadNormal(s.filters, lower);
    }
  }

  lemma NamesDiffer()
    ensures "dc" != "r" && "dc" != "q" && "dc" != "f" && "dc" != "tz" && "dc" != "live" && "dc" != "s"
    ensures "r" != "q" && "r" != "f" && "r" != "tz" && "r" != "live" && "r" != "s"
    ensures "q" != "f" && "q" != "tz" && "q" != "live" && "q" != "s"
    ensures "f" != "tz" && "f" != "live" && "f" != "s" && "tz" != "live" && "tz" != "s" && "live" != "s"
  {
    assert "dc"[0] == 'd' && "tz"[0] == 't' && "r"[0] == 'r' && "q"[0] == 'q' && "f"[0] == 'f' && "s"[0] == 's';
  }

  function Opening(s: State, n: Numerals): Params {
    [("dc", s.dc), ("r", SerializeRange(s.range, n))]
  }

  lemma OpeningReads(s: State, n: Numerals)
    ensures var p := Opening(s, n);
            && p == Set(Set([], "dc", s.dc), "r", SerializeRange(s.range, n))
            && Get(p, "dc") == Some(s.dc) && Get(p, "r") == Some(SerializeRange(s.range, n))
            && Get(p, "q") == None && Get(p, "tz") == None && Get(p, "live") == None && Get(p, "s") == None
            && GetAll(p, "f") == []
  {
    NamesDiffer();
    hide SerializeRange;
    var p := Opening(s, n);
    assert [("dc", s.dc)][1..] == [];
    Misses(p, "q");
    Misses(p, "tz");
    Misses(p, "live");
    Misses(p, "s");
    Misses(p, "f");
    assert p[1..] == [("r", SerializeRange(s.range, n))];
  }

  lemma Misses(p: Params, name: string)
    requires |p| == 2 && p[0].0 != name && p[1].0 != name
    ensures Get(p, name) == None && GetAll(p, name) == []
  {
    assert p[1..] == [p[1]] && p[1..][1..] == [];
    assert Get(p[1..][1..], name) == None && Get(p[1..], name) == None;
    assert GetAll(p[1..][1..], name) == [] && GetAll(p[1..], name) == [];
  }

  lemma StateReads(s: State, localDc: string, lower: Lowering, n: Numerals)
    ensures ParseState(StateToSearch(s, n), localDc, lower, n) ==
            State(if s.dc == "" then localDc else s.dc, ParseRange(Some(SerializeRange(s.range, n)), n),
                  Reread(s.filters, lower),
                  s.utc, s.live, s.byDatacenter)
  {
    OpeningReads(s, n);
    NamesDiffer();
    hide Set;
    hide Get;
    hide GetAll;
    hide ParseRange;
    hide SerializeRange;
    hide ParseFilters;
    hide WithFilters;
    hide Opening;
    var start := Opening(s, n);
    FiltersWritten(start, s.filters, "dc");
    FiltersWritten(start, s.filters, "r");
    FiltersWritten(start, s.filters, "tz");
    FiltersWritten(start, s.filters, "live");
    FiltersWritten(start, s.filters, "s");
    OptionsRead(WithFilters(start, s.filters), s);
  }

  lemma OptionReads(p: Params, on: bool, name: string, value: string)
    requires name != "f"
    ensures var t := WithOption(p, on, name, value);
            && (forall other | other != name :: Get(t, other) == Get(p, other))
            && Get(t, name) == (if on then Some(value) else Get(p, name))
            && GetAll(t, "f") == GetAll(p, "f")
  {
    forall other: string {
      SetReads(p, name, value, other);
    }
  }

  lemma OptionsRead(p: Params, s: State)
    requires Get(p, "tz") == None && Get(p, "live") == None && Get(p, "s") == None
    ensures var t := WithOption(WithOption(WithOption(p, s.utc, "tz", "utc"), !s.live, "live", "0"),
                                s.byDatacenter, "s", "dc");
            && Get(t, "dc") == Get(p, "dc") && Get(t, "r") == Get(p, "r") && Get(t, "q") == Get(p, "q")
            && GetAll(t, "f") == GetAll(p, "f")
            && (Get(t, "tz") == Some("utc") <==> s.utc)
            && (Get(t, "live") != Some("0") <==> s.live)
            && (Get(t, "s") == Some("dc") <==> s.byDatacenter)
  {
    NamesDiffer();
    hide Get;
    hide GetAll;
    hide WithOption;
    var a := WithOption(p, s.utc, "tz", "utc");
    var b := WithOption(a, !s.live, "live", "0");
    OptionReads(p, s.utc, "tz", "utc");
    OptionReads(a, !s.live, "live", "0");
    OptionReads(b, s.byDatacenter, "s", "dc");
  }
}
