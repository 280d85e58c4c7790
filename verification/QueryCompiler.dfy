/** The compiler from queries to SQL (storage/mysql/query.go), and its correctness: the text it
    writes, evaluated with the arguments it collects, means what the reference matcher says. */
module QueryCompiler {
  import opened Wrappers
  import opened Timeline
  import opened Queries
  import opened Sql
  import opened Sequences
  import Decimal
  import Like

  /** The first instant of the year 2000: no query looks further back. */
  const MIN_TIME: int := UNIX_EPOCH + 946_684_800 * SECOND

  const MAX_OUTPUT := 4096

  /** What the insert keeps of an event: long check outputs are cut. */
  function Stored(e: Event): Event {
    if |e.checkOutput| > MAX_OUTPUT then e.(checkOutput := e.checkOutput[..MAX_OUTPUT]) else e
  }

  function StoredRow(e: Event): Row {
    Row(Stored(e), e.OldStatus(), e.NewStatus())
  }

  /** Stored is all of an event but what of its output goes beyond the limit. */
  lemma StoredCuts(e: Event)
    ensures Stored(e).(checkOutput := e.checkOutput) == e
    ensures Stored(e).checkOutput <= e.checkOutput
    ensures |Stored(e).checkOutput| == if |e.checkOutput| <= 4096 then |e.checkOutput| else 4096
  {}

  function ColumnOf(field: Field): Column {
    match field
    case Datacenter => Dc
    case Service => ServiceName
    case Node => NodeName
    case Check => CheckName
    case Team => TeamName
    case App => AppName
    case Version => VersionName
    case CheckType => TypeName
    case Kind => KindCode
    case ToStatus => NewStatus
    case FromStatus => OldStatus
    case Healthy => NewHealthy
    case _ => Id
  }

  predicate IsEnum(field: Field) {
    field in {Kind, ToStatus, FromStatus, Healthy}
  }

  function OrZero(r: Option<int>): int {
    match r case Some(n) => n case None => 0
  }

  function EnumValue(field: Field, v: string): int {
    match field
    case Kind => OrZero(ParseKind(v))
    case ToStatus => OrZero(ParseStatus(v))
    case FromStatus => OrZero(ParseStatus(v))
    case _ => OrZero(Decimal.Parse(v))
  }

  function ValueText(field: Field, v: string): Text {
    if field == Tag then [if EndsInStar(v) then TagsSearch else TagsContain]
    else [Col(ColumnOf(field)), if EndsInStar(v) then LikeOp else Equals, Param]
  }

  function ValueArg(field: Field, v: string): Arg {
    if IsEnum(field) then Num(EnumValue(field, v))
    else Str(if EndsInStar(v) then Like.Escape(v[..|v| - 1]) + "%" else v)
  }

  function ValueTexts(f: Filter): seq<Text> {
    seq(|f.values|, i requires 0 <= i < |f.values| => ValueText(f.field, f.values[i]))
  }

  function FilterArgs(f: Filter): seq<Arg> {
    seq(|f.values|, i requires 0 <= i < |f.values| => ValueArg(f.field, f.values[i]))
  }

  function PlainText(f: Filter): Text {
    if IsEnum(f.field) then [Col(ColumnOf(f.field)), In, Open] + Params(|f.values|) + [Close]
    else [Open] + Join(ValueTexts(f), Or) + [Close]
  }

  function FilterText(f: Filter): Text {
    if f.negated then [Not] + PlainText(f) else PlainText(f)
  }

  function Bounds(q: Query, now: int): (int, int) {
    (if q.from < MIN_TIME then MIN_TIME else q.from, if q.to == 0 then now else q.to)
  }

  const TIME_TEXT: Text := [Col(Time), Between, Param, And, Param]

  const SEARCH_PARTS: seq<Text> := [
    [Col(Output), LikeOp, Param], [Col(ServiceName), LikeOp, Param],
    [Col(NodeName), LikeOp, Param], [Col(CheckName), LikeOp, Param]]

  const SEARCH_TEXT: Text := [Open] + Join(SEARCH_PARTS, Or) + [Close]

  function SearchArg(text: string): Arg {
    Str("%" + Like.Escape(text) + "%")
  }

  /** The conjuncts of the condition, each with its own arguments. */
  function Conjuncts(q: Query, now: int): seq<(Text, seq<Arg>)> {
    [(TIME_TEXT, [Num(Bounds(q, now).0), Num(Bounds(q, now).1)])]
    + (if q.datacenter != "" then [([Col(Dc), Equals, Param], [Str(q.datacenter)])] else [])
    + FilterConjuncts(q.filters)
    + (if q.text == "" then []
       else [(SEARCH_TEXT, [SearchArg(q.text), SearchArg(q.text), SearchArg(q.text), SearchArg(q.text)])])
  }

  function FilterConjuncts(filters: seq<Filter>): seq<(Text, seq<Arg>)> {
    seq(|filters|, i requires 0 <= i < |filters| => (FilterText(filters[i]), FilterArgs(filters[i])))
  }

  function Texts(cs: seq<(Text, seq<Arg>)>): seq<Text> {
    seq(|cs|, i requires 0 <= i < |cs| => cs[i].0)
  }

  function Groups(cs: seq<(Text, seq<Arg>)>): seq<seq<Arg>> {
    seq(|cs|, i requires 0 <= i < |cs| => cs[i].1)
  }

  /** `filterSQL`. */
  method FilterSQL(f: Filter) returns (text: Text, args: seq<Arg>)
    ensures text == FilterText(f) && args == FilterArgs(f)
  {
    var parts: seq<Text> := [];
    args := [];
    if IsEnum(f.field) {
      for k := 0 to |f.values|
        invariant args == FilterArgs(f)[..k] && parts == ParamParts(k)
      {
        parts := parts + [[Param]];
        args := args + [Num(EnumValue(f.field, f.values[k]))];
      }
      assert parts == ParamParts(|f.values|);
      text := [Col(ColumnOf(f.field)), In, Open] + Join(parts, Comma) + [Close];
    } else {
      for k := 0 to |f.values|
        invariant args == FilterArgs(f)[..k] && parts == ValueTexts(f)[..k]
      {
        var v := f.values[k];
        if EndsInStar(v) {
          parts := parts + [if f.field == Tag then [TagsSearch] else [Col(ColumnOf(f.field)), LikeOp, Param]];
          args := args + [Str(Like.Escape(v[..|v| - 1]) + "%")];
        } else {
          parts := parts + [if f.field == Tag then [TagsContain] else [Col(ColumnOf(f.field)), Equals, Param]];
          args := args + [Str(v)];
        }
      }
      assert parts == ValueTexts(f);
      text := [Open] + Join(parts, Or) + [Close];
    }
    assert args == FilterArgs(f);
    if f.negated {
      text := [Not] + text;
    }
  }

  /** `buildWhere`. */
  method BuildWhere(q: Query, now: int) returns (text: Text, args: seq<Arg>)
    ensures text == Join(Texts(Conjuncts(q, now)), And)
    ensures args == Concat(Groups(Conjuncts(q, now)))
  {
    hide Concat;
    hide Join;
    hide FilterText;
    hide FilterArgs;
    ghost var all := Conjuncts(q, now);
    var (from, to) := Bounds(q, now);
    var conds := [TIME_TEXT];
    args := [Num(from), Num(to)];
    ghost var done := 1;
    Extended(all, 0);
    NothingConcatenated(all);
    if q.datacenter != "" {
      conds := conds + [[Col(Dc), Equals, Param]];
      Extended(all, done);
      args := args + [Str(q.datacenter)];
      done := done + 1;
    }
    ghost var base := done;
    for k := 0 to |q.filters|
      invariant done == base + k
      invariant conds == Texts(all[..done]) && args == Concat(Groups(all[..done]))
    {
      assert all[done] == FilterConjuncts(q.filters)[k];
      var filterText, filterArgs := FilterSQL(q.filters[k]);
      conds := conds + [filterText];
      Extended(all, done);
      args := args + filterArgs;
      done := done + 1;
    }
    if q.text != "" {
      var p := SearchArg(q.text);
      conds := conds + [SEARCH_TEXT];
      Extended(all, done);
      args := args + [p, p, p, p];
      done := done + 1;
    }
    assert all[..done] == all;
    text := Join(conds, And);
  }

  lemma NothingConcatenated(all: seq<(Text, seq<Arg>)>)
    ensures Texts(all[..0]) == [] && Concat(Groups(all[..0])) == []
  {}

  lemma Extended(all: seq<(Text, seq<Arg>)>, k: nat)
    requires k < |all|
    ensures Texts(all[..k + 1]) == Texts(all[..k]) + [all[k].0]
    ensures Concat(Groups(all[..k + 1])) == Concat(Groups(all[..k])) + all[k].1
  {
    assert Groups(all[..k + 1]) == Groups(all[..k]) + [all[k].1];
    ConcatAppend(Groups(all[..k]), all[k].1);
  }

  // ---- meaning ---------------------------------------------------------------

  /** What the compiled text of one value means on a stored row. */
  predicate SqlOne(field: Field, row: Row, v: string, coll: Folding) {
    if IsEnum(field) then NumericColumn(row, ColumnOf(field)) == Some(EnumValue(field, v))
    else if field == CheckType then MatchName(row.event.checkType, v, coll)
    else MatchOne(field, row.event, v, coll)
  }

  predicate SqlFilter(f: Filter, row: Row, coll: Folding) {
    exists v | v in f.values :: SqlOne(f.field, row, v, coll)
  }

  lemma ValueMeans(field: Field, v: string, row: Row, coll: Folding)
    requires !IsEnum(field) && !field.Unsupported?
    ensures Means(row, coll, ValueText(field, v), [ValueArg(field, v)], SqlOne(field, row, v, coll))
  {
    hide Means;
    var arg := ValueArg(field, v);
    if field == Tag {
      TagMeans(row, coll, if EndsInStar(v) then TagsSearch else TagsContain, arg.s);
      forall t | t in row.event.tags
        ensures MatchName(t, v, EXACT) <==> if EndsInStar(v) then Like.Matches(t, arg.s, EXACT) else t == v
      {
        FoldExact(t);
        FoldExact(v);
        if EndsInStar(v) {
          Like.PrefixPattern(t, v[..|v| - 1], EXACT);
        }
      }
    } else {
      ComparisonMeans(row, coll, ColumnOf(field), if EndsInStar(v) then LikeOp else Equals, arg);
      if EndsInStar(v) {
        Like.PrefixPattern(StringColumn(row, ColumnOf(field)).value, v[..|v| - 1], coll);
      }
    }
  }

  lemma SingletonGroups(args: seq<Arg>)
    ensures Concat(seq(|args|, i requires 0 <= i < |args| => [args[i]])) == args
  {
    var groups := seq(|args|, i requires 0 <= i < |args| => [args[i]]);
    if args != [] {
      SingletonGroups(args[1..]);
      assert groups[1..] == seq(|args[1..]|, i requires 0 <= i < |args[1..]| => [args[1..][i]]);
      assert args == [args[0]] + args[1..];
    }
  }

  lemma FilterMeans(f: Filter, row: Row, coll: Folding)
    requires ValidFilter(f)
    ensures Means(row, coll, FilterText(f), FilterArgs(f), SqlFilter(f, row, coll) != f.negated)
  {
    hide Means;
    if IsEnum(f.field) {
      var codes := seq(|f.values|, i requires 0 <= i < |f.values| => EnumValue(f.field, f.values[i]));
      InMeans(row, coll, ColumnOf(f.field), codes);
      assert FilterArgs(f) == NumArgs(codes);
      var code := NumericColumn(row, ColumnOf(f.field)).value;
      assert code in codes <==> SqlFilter(f, row, coll) by {
        if v :| v in f.values && SqlOne(f.field, row, v, coll) {
          var i :| 0 <= i < |f.values| && f.values[i] == v;
          assert codes[i] == code;
        }
        if i :| 0 <= i < |codes| && codes[i] == code {
          assert SqlOne(f.field, row, f.values[i], coll);
        }
      }
    } else {
      var args := FilterArgs(f);
      var bs := seq(|args|, i requires 0 <= i < |args| => SqlOne(f.field, row, f.values[i], coll));
      var groups := seq(|args|, i requires 0 <= i < |args| => [args[i]]);
      forall i | 0 <= i < |args|
        ensures Means(row, coll, ValueTexts(f)[i], groups[i], bs[i])
      {
        ValueMeans(f.field, f.values[i], row, coll);
      }
      ParenthesisedOr(row, coll, ValueTexts(f), groups, bs);
      SingletonGroups(args);
      assert AnyTrue(bs) <==> SqlFilter(f, row, coll) by {
        if v :| v in f.values && SqlOne(f.field, row, v, coll) {
          var i :| 0 <= i < |f.values| && f.values[i] == v;
          assert bs[i];
        }
      }
    }
    assert Means(row, coll, PlainText(f), FilterArgs(f), SqlFilter(f, row, coll));
    if f.negated {
      NegatedMeans(row, coll, PlainText(f), FilterArgs(f), SqlFilter(f, row, coll));
    }
  }

  lemma SearchMeans(q: Query, row: Row, coll: Folding)
    ensures var p := SearchArg(q.text);
            Means(row, coll, SEARCH_TEXT, [p, p, p, p], MatchText(q.text, row.event, coll))
  {
    hide Means;
    var p := SearchArg(q.text);
    var columns := [row.event.checkOutput, row.event.serviceName, row.event.nodeName, row.event.checkName];
    var bs := seq(4, i requires 0 <= i < 4 => Like.Matches(columns[i], p.s, coll));
    var groups := [[p], [p], [p], [p]];
    forall i | 0 <= i < 4
      ensures Means(row, coll, SEARCH_PARTS[i], groups[i], bs[i])
      ensures bs[i] <==> Contains(Fold(columns[i], coll), Fold(q.text, coll))
    {
      ComparisonMeans(row, coll, SEARCH_PARTS[i][0].col, LikeOp, p);
      Like.ContainsPattern(columns[i], q.text, coll);
    }
    ParenthesisedOr(row, coll, SEARCH_PARTS, groups, bs);
    assert Concat(groups) == [p, p, p, p] by {
      assert Concat(groups[3..]) == [p] + Concat<Arg>([]);
      assert Concat(groups[2..]) == [p] + Concat(groups[3..]);
      assert Concat(groups[1..]) == [p] + Concat(groups[2..]);
    }
    assert AnyTrue(bs) <==> bs[0] || bs[1] || bs[2] || bs[3];
  }

  /** What the whole condition means, value by value. */
  predicate SqlMatch(q: Query, now: int, row: Row, coll: Folding) {
    && Bounds(q, now).0 <= row.event.time <= Bounds(q, now).1
    && (q.datacenter != "" ==> Fold(row.event.datacenter, coll) == Fold(q.datacenter, coll))
    && (forall f | f in q.filters :: SqlFilter(f, row, coll) != f.negated)
    && (q.text != "" ==> MatchText(q.text, row.event, coll))
  }

  ghost predicate Denote(cs: seq<(Text, seq<Arg>)>, row: Row, coll: Folding, bs: seq<bool>) {
    |cs| == |bs| && forall i | 0 <= i < |cs| :: Means(row, coll, cs[i].0, cs[i].1, bs[i])
  }

  lemma DenoteAppend(cs: seq<(Text, seq<Arg>)>, ds: seq<(Text, seq<Arg>)>, row: Row, coll: Folding, bs: seq<bool>,
                     es: seq<bool>)
    requires Denote(cs, row, coll, bs) && Denote(ds, row, coll, es)
    ensures Denote(cs + ds, row, coll, bs + es)
  {
    hide Means;
  }

  lemma AllTrueAppend(bs: seq<bool>, es: seq<bool>)
    ensures AllTrue(bs + es) <==> AllTrue(bs) && AllTrue(es)
  {
    if AllTrue(bs + es) {
      assert forall i | 0 <= i < |bs| :: bs[i] == (bs + es)[i];
      assert forall i | 0 <= i < |es| :: es[i] == (bs + es)[|bs| + i];
    }
  }

  lemma FiltersDenote(filters: seq<Filter>, row: Row, coll: Folding) returns (bs: seq<bool>)
    requires forall f | f in filters :: ValidFilter(f)
    ensures Denote(FilterConjuncts(filters), row, coll, bs)
    ensures AllTrue(bs) <==> forall f | f in filters :: SqlFilter(f, row, coll) != f.negated
  {
    hide Means;
    bs := seq(|filters|, i requires 0 <= i < |filters| => SqlFilter(filters[i], row, coll) != filters[i].negated);
    forall i | 0 <= i < |filters|
      ensures Means(row, coll, FilterConjuncts(filters)[i].0, FilterConjuncts(filters)[i].1, bs[i])
    {
      FilterMeans(filters[i], row, coll);
    }
    if f :| f in filters && SqlFilter(f, row, coll) == f.negated {
      var i :| 0 <= i < |filters| && filters[i] == f;
      assert !bs[i];
    }
    if i :| 0 <= i < |bs| && !bs[i] {
      assert filters[i] in filters;
    }
  }

  lemma ConjunctsDenote(q: Query, now: int, row: Row, coll: Folding) returns (bs: seq<bool>)
    requires ValidQuery(q)
    ensures Denote(Conjuncts(q, now), row, coll, bs) && bs != []
    ensures AllTrue(bs) <==> SqlMatch(q, now, row, coll)
  {
    hide Means;
    hide AllTrue;
    var (from, to) := Bounds(q, now);
    var time, dc, text := [from <= row.event.time <= to], [], [];
    var timeC, dcC, textC := [(TIME_TEXT, [Num(from), Num(to)])], [], [];
    BetweenMeans(row, coll, Time, from, to);
    if q.datacenter != "" {
      dc := [Fold(row.event.datacenter, coll) == Fold(q.datacenter, coll)];
      dcC := [([Col(Dc), Equals, Param], [Str(q.datacenter)])];
      ComparisonMeans(row, coll, Dc, Equals, Str(q.datacenter));
    }
    var kept := FiltersDenote(q.filters, row, coll);
    if q.text != "" {
      var p := SearchArg(q.text);
      text := [MatchText(q.text, row.event, coll)];
      textC := [(SEARCH_TEXT, [p, p, p, p])];
      SearchMeans(q, row, coll);
    }
    DenoteAppend(timeC, dcC, row, coll, time, dc);
    DenoteAppend(timeC + dcC, FilterConjuncts(q.filters), row, coll, time + dc, kept);
    DenoteAppend(timeC + dcC + FilterConjuncts(q.filters), textC, row, coll, time + dc + kept, text);
    bs := time + dc + kept + text;
    AllTrueAppend(time, dc);
    AllTrueAppend(time + dc, kept);
    AllTrueAppend(time + dc + kept, text);
    AllTrueShort(time);
    AllTrueShort(dc);
    AllTrueShort(text);
  }

  lemma AllTrueShort(bs: seq<bool>)
    requires |bs| <= 1
    ensures AllTrue(bs) <==> bs == [] || bs[0]
  {}

  lemma DenoteAll(cs: seq<(Text, seq<Arg>)>, row: Row, coll: Folding, bs: seq<bool>)
    requires Denote(cs, row, coll, bs) && bs != []
    ensures AllMean(row, coll, Texts(cs), Groups(cs), bs)
  {
    hide Means;
  }

  /** Conjuncts joined with AND evaluate to their conjunction, using up their arguments. */
  lemma DenotedMeaning(cs: seq<(Text, seq<Arg>)>, row: Row, coll: Folding, bs: seq<bool>)
    requires Denote(cs, row, coll, bs) && bs != []
    ensures Evaluate(row, Join(Texts(cs), And), Concat(Groups(cs)), coll) == Some(AllTrue(bs))
  {
    hide AllMean;
    hide Denote;
    DenoteAll(cs, row, coll, bs);
    var text, args := Join(Texts(cs), And), Concat(Groups(cs));
    JoinedAnd(row, coll, Texts(cs), Groups(cs), bs, [], []);
    assert text + [] == text && args + [] == args;
  }

  /** The compiled condition means, on every stored row, exactly what its parts mean; each `?`
      takes its own argument and none is left over. */
  lemma CompiledMeaning(q: Query, now: int, row: Row, coll: Folding)
    requires ValidQuery(q)
    ensures Evaluate(row, Join(Texts(Conjuncts(q, now)), And), Concat(Groups(Conjuncts(q, now))), coll)
         == Some(SqlMatch(q, now, row, coll))
  {
    var bs := ConjunctsDenote(q, now, row, coll);
    DenotedMeaning(Conjuncts(q, now), row, coll, bs);
  }

  // ---- where the compiled and the interpreted meaning part -------------------

  /** A check type ending in "*" is compiled to a prefix, and interpreted literally. */
  predicate StarredType(f: Filter) {
    f.field == CheckType && exists v | v in f.values :: EndsInStar(v)
  }

  predicate CodeInTable(field: Field, row: Row) {
    match field
    case Kind => ValidKind(row.event.kind)
    case ToStatus => ValidStatus(row.newStatus)
    case FromStatus => ValidStatus(row.oldStatus)
    case _ => true
  }

  /** A code outside the table is printed "unknown", but stored as itself. */
  predicate UnnamedCode(f: Filter, row: Row) {
    !CodeInTable(f.field, row) && "unknown" in f.values
  }

  lemma EnumAgrees(f: Filter, e: Event, v: string, coll: Folding)
    requires ValidFilter(f) && IsEnum(f.field) && v in f.values
    ensures MatchOne(f.field, Stored(e), v, coll) <==>
              SqlOne(f.field, StoredRow(e), v, coll) || (!CodeInTable(f.field, StoredRow(e)) && v == "unknown")
  {
    hide PositionOf;
    hide NameOf;
    hide Distinct;
    NamesDistinct();
    match f.field
    case Kind => NamesInverse(KIND_NAMES, v, e.kind);
    case ToStatus => NamesInverse(STATUS_NAMES, v, e.NewStatus());
    case FromStatus => NamesInverse(STATUS_NAMES, v, e.OldStatus());
    case Healthy =>
  }

  /** No code outside a table equals a parsed one. */
  lemma UnnamedCodeIsStoredAsItself(f: Filter, e: Event, v: string, coll: Folding)
    requires ValidFilter(f) && IsEnum(f.field) && v in f.values && !CodeInTable(f.field, StoredRow(e))
    ensures !SqlOne(f.field, StoredRow(e), v, coll)
  {
    hide PositionOf;
    PositionOfFirst(KIND_NAMES, v);
    PositionOfFirst(STATUS_NAMES, v);
  }

  /** On an enum filter the two meanings agree on a row exactly when the row's code is in the
      table or "unknown" is not asked for. */
  lemma EnumFilterAgrees(f: Filter, e: Event, coll: Folding)
    requires ValidFilter(f) && IsEnum(f.field)
    ensures SqlFilter(f, StoredRow(e), coll) == MatchFilter(f, Stored(e), coll) <==> !UnnamedCode(f, StoredRow(e))
  {
    var row := StoredRow(e);
    forall v | v in f.values
      ensures MatchOne(f.field, Stored(e), v, coll) <==>
                SqlOne(f.field, row, v, coll) || (!CodeInTable(f.field, row) && v == "unknown")
      ensures !CodeInTable(f.field, row) ==> !SqlOne(f.field, row, v, coll)
    {
      EnumAgrees(f, e, v, coll);
      if !CodeInTable(f.field, row) {
        UnnamedCodeIsStoredAsItself(f, e, v, coll);
      }
    }
    if UnnamedCode(f, row) {
      assert MatchOne(f.field, Stored(e), "unknown", coll);
    }
  }

  /** On every other field but the check type the two meanings are the same. */
  lemma NameFilterAgrees(f: Filter, row: Row, coll: Folding)
    requires ValidFilter(f) && !IsEnum(f.field) && !StarredType(f)
    ensures SqlFilter(f, row, coll) == MatchFilter(f, row.event, coll)
  {
    forall v | v in f.values
      ensures SqlOne(f.field, row, v, coll) <==> MatchOne(f.field, row.event, v, coll)
    {}
  }

  function LongestValue(values: seq<string>): nat {
    if values == [] then 0
    else if |values[0]| > LongestValue(values[1..]) then |values[0]| else LongestValue(values[1..])
  }

  lemma {:induction false} NoLongerValue(values: seq<string>, v: string)
    requires v in values
    ensures |v| <= LongestValue(values)
  {
    if v != values[0] {
      NoLongerValue(values[1..], v);
    }
  }

  /** A starred check type always matches, in SQL, a row that the interpreter refuses. */
  lemma StarredTypeDisagrees(f: Filter, e: Event, coll: Folding) returns (other: Event)
    requires StarredType(f)
    ensures SqlFilter(f, StoredRow(other), coll) && !MatchFilter(f, Stored(other), coll)
  {
    var v :| v in f.values && EndsInStar(v);
    var prefix := v[..|v| - 1];
    other := e.(checkType := prefix + seq(LongestValue(f.values) + 1, _ => 'x'));
    assert Fold(other.checkType, coll)[..|prefix|] == Fold(prefix, coll);
    assert SqlOne(f.field, StoredRow(other), v, coll);
    forall w | w in f.values
      ensures !MatchOne(f.field, Stored(other), w, coll)
    {
      NoLongerValue(f.values, w);
      assert |Fold(w, coll)| != |Fold(other.checkType, coll)|;
    }
  }

  /** A check-type filter has one meaning on all rows exactly when no value ends in "*". */
  lemma TypeFilterAgrees(f: Filter, coll: Folding)
    requires ValidFilter(f) && f.field == CheckType
    ensures (forall e :: SqlFilter(f, StoredRow(e), coll) == MatchFilter(f, Stored(e), coll)) <==> !StarredType(f)
  {
    if StarredType(f) {
      var e: Event := BLANK;
      var other := StarredTypeDisagrees(f, e, coll);
    } else {
      forall e
        ensures SqlFilter(f, StoredRow(e), coll) == MatchFilter(f, Stored(e), coll)
      {
        NameFilterAgrees(f, StoredRow(e), coll);
      }
    }
  }

  /** The condition a caller can check before asking for the equivalence. */
  predicate Comparable(q: Query, row: Row) {
    forall f | f in q.filters :: !StarredType(f) && !UnnamedCode(f, row)
  }

  /** Compiler correctness: on every stored row the compiled text accepts exactly what the
      interpreter accepts, within the bounds the compiler adds, the database comparing names
      and text up to its collation. */
  lemma CompilerCorrect(q: Query, now: int, e: Event, coll: Folding)
    requires ValidQuery(q) && Comparable(q, StoredRow(e))
    ensures Evaluate(StoredRow(e), Join(Texts(Conjuncts(q, now)), And), Concat(Groups(Conjuncts(q, now))), coll)
         == Some(MatchUnder(Stored(e), q, coll, coll) && MIN_TIME <= e.time && (q.to == 0 ==> e.time <= now))
  {
    CompiledMeaning(q, now, StoredRow(e), coll);
    forall f | f in q.filters
      ensures SqlFilter(f, StoredRow(e), coll) == MatchFilter(f, Stored(e), coll)
    {
      if IsEnum(f.field) {
        EnumFilterAgrees(f, e, coll);
      } else {
        NameFilterAgrees(f, StoredRow(e), coll);
      }
    }
  }

  // ---- collation -------------------------------------------------------------

  predicate Folded(s: string, coll: Folding) {
    Fold(s, coll) == s
  }

  /** Names already in folded form on both sides, as catalog names in lower case are. */
  ghost predicate NamesFolded(q: Query, e: Event, coll: Folding) {
    && Folded(q.datacenter, coll)
    && Folded(e.checkType, coll)
    && (forall field | IsName(field) :: Folded(NameOfField(field, e), coll))
    && (forall f, v | f in q.filters && v in f.values ::
          Folded(v, coll) && (EndsInStar(v) ==> Folded(v[..|v| - 1], coll)))
  }

  lemma FoldedNameMatches(name: string, v: string, lower: Folding)
    requires Folded(name, lower) && Folded(v, lower) && (EndsInStar(v) ==> Folded(v[..|v| - 1], lower))
    ensures MatchName(name, v, lower) == MatchName(name, v, EXACT)
  {
    FoldExact(name);
    FoldExact(v);
    if EndsInStar(v) {
      FoldExact(v[..|v| - 1]);
    }
  }

  lemma FoldedValueMatches(field: Field, e: Event, v: string, lower: Folding)
    requires Folded(e.checkType, lower) && Folded(v, lower) && (EndsInStar(v) ==> Folded(v[..|v| - 1], lower))
    requires IsName(field) ==> Folded(NameOfField(field, e), lower)
    ensures MatchOne(field, e, v, lower) == MatchOne(field, e, v, EXACT)
  {
    hide MatchName;
    hide Fold;
    FoldExact(e.checkType);
    FoldExact(v);
    if IsName(field) {
      FoldedNameMatches(NameOfField(field, e), v, lower);
    }
  }

  lemma FoldedNamesMatch(q: Query, e: Event, lower: Folding)
    requires NamesFolded(q, e, lower)
    ensures MatchUnder(e, q, lower, lower) == Match(e, q, lower)
  {
    hide MatchOne;
    hide MatchText;
    hide Fold;
    assert IsName(Datacenter);
    FoldExact(e.datacenter);
    FoldExact(q.datacenter);
    forall f, v | f in q.filters && v in f.values
      ensures MatchOne(f.field, e, v, lower) == MatchOne(f.field, e, v, EXACT)
    {
      FoldedValueMatches(f.field, e, v, lower);
    }
    forall f | f in q.filters
      ensures MatchFilter(f, e, lower) == MatchFilter(f, e, EXACT)
    {}
  }

  /** When all names are in folded form, the collation does not show: the compiled text means
      the program's own matching. */
  lemma CompilerMatches(q: Query, now: int, e: Event, lower: Folding)
    requires ValidQuery(q) && Comparable(q, StoredRow(e)) && NamesFolded(q, Stored(e), lower)
    ensures Evaluate(StoredRow(e), Join(Texts(Conjuncts(q, now)), And), Concat(Groups(Conjuncts(q, now))), lower)
         == Some(Match(Stored(e), q, lower) && MIN_TIME <= e.time && (q.to == 0 ==> e.time <= now))
  {
    CompilerCorrect(q, now, e, lower);
    FoldedNamesMatch(q, Stored(e), lower);
  }

  /** The part of a value that is compared with the name. */
  function Literal(v: string): string {
    if EndsInStar(v) then v[..|v| - 1] else v
  }

  /** No other character folds onto one of a text. */
  ghost predicate Unambiguous(s: string, coll: Folding) {
    forall i, c | 0 <= i < |s| && coll(c) == coll(s[i]) :: c == s[i]
  }

  lemma SameWhenUnambiguous(name: string, s: string, coll: Folding)
    requires Unambiguous(s, coll)
    ensures Fold(name, coll) == Fold(s, coll) <==> name == s
    ensures HasPrefix(Fold(name, coll), Fold(s, coll)) <==> HasPrefix(name, s)
  {
    if HasPrefix(Fold(name, coll), Fold(s, coll)) {
      forall i | 0 <= i < |s|
        ensures name[i] == s[i]
      {
        assert Fold(name, coll)[i] == Fold(s, coll)[i];
      }
    }
    if HasPrefix(name, s) {
      assert Fold(name, coll)[..|s|] == Fold(s, coll);
    }
  }

  lemma UnambiguousMatches(name: string, v: string, coll: Folding)
    requires Unambiguous(Literal(v), coll)
    ensures MatchName(name, v, coll) == MatchName(name, v, EXACT)
  {
    SameWhenUnambiguous(name, Literal(v), coll);
    FoldExact(name);
    FoldExact(v);
    FoldExact(Literal(v));
  }

  /** In general a value, starred or not, keeps its exact meaning on all names exactly when no
      other character folds onto one of those compared. */
  lemma CollationShows(v: string, coll: Folding)
    ensures (forall name :: MatchName(name, v, coll) == MatchName(name, v, EXACT)) <==> Unambiguous(Literal(v), coll)
  {
    var p := Literal(v);
    if Unambiguous(p, coll) {
      forall name: string {
        UnambiguousMatches(name, v, coll);
      }
    } else {
      var i, c :| 0 <= i < |p| && coll(c) == coll(p[i]) && c != p[i];
      var name := p[i := c];
      FoldExact(name);
      FoldExact(p);
      FoldExact(v);
      assert Fold(name, coll) == Fold(p, coll);
      assert MatchName(name, v, coll) != MatchName(name, v, EXACT);
    }
  }

  /** A query none of whose names has another character folded onto it. */
  ghost predicate NamesUnambiguous(q: Query, coll: Folding) {
    && Unambiguous(q.datacenter, coll)
    && forall f, v | f in q.filters && v in f.values && (IsName(f.field) || f.field == CheckType) ::
         Unambiguous(Literal(v), coll)
  }

  lemma UnambiguousNamesMatch(q: Query, e: Event, coll: Folding)
    requires NamesUnambiguous(q, coll) && forall f | f in q.filters :: !StarredType(f)
    ensures MatchUnder(e, q, coll, coll) == Match(e, q, coll)
  {
    hide MatchText;
    hide Fold;
    hide Unambiguous;
    SameWhenUnambiguous(e.datacenter, q.datacenter, coll);
    FoldExact(e.datacenter);
    FoldExact(q.datacenter);
    forall f, v | f in q.filters && v in f.values
      ensures MatchOne(f.field, e, v, coll) == MatchOne(f.field, e, v, EXACT)
    {
      if f.field == CheckType {
        assert !StarredType(f);
        assert !EndsInStar(v);
        assert Literal(v) == v;
        SameWhenUnambiguous(e.checkType, v, coll);
        FoldExact(e.checkType);
        FoldExact(v);
      } else if IsName(f.field) {
        UnambiguousMatches(NameOfField(f.field, e), v, coll);
      }
      hide MatchName;
    }
    hide MatchOne;
    forall f | f in q.filters
      ensures MatchFilter(f, e, coll) == MatchFilter(f, e, EXACT)
    {}
  }

  /** For such a query the compiled text means the program's own matching on every stored row,
      whatever the names in it. */
  lemma CompilerMatchesAlways(q: Query, now: int, e: Event, coll: Folding)
    requires ValidQuery(q) && Comparable(q, StoredRow(e)) && NamesUnambiguous(q, coll)
    ensures Evaluate(StoredRow(e), Join(Texts(Conjuncts(q, now)), And), Concat(Groups(Conjuncts(q, now))), coll)
         == Some(Match(Stored(e), q, coll) && MIN_TIME <= e.time && (q.to == 0 ==> e.time <= now))
  {
    CompilerCorrect(q, now, e, coll);
    UnambiguousNamesMatch(q, Stored(e), coll);
  }

  /** The query for one name. */
  function NameQuery(field: Field, v: string): Query {
    Query("", 0, 0, [Filter(field, [v], false)], "", START, 0)
  }

  lemma NameQueryMatches(field: Field, v: string, e: Event, names: Folding, text: Folding)
    requires IsName(field)
    ensures MatchUnder(e, NameQuery(field, v), names, text) <==> MatchName(NameOfField(field, e), v, names)
  {
    hide MatchName;
    var f := NameQuery(field, v).filters[0];
    assert v in f.values && f in NameQuery(field, v).filters;
    assert MatchFilter(f, e, names) <==> MatchOne(field, e, v, names);
    assert MatchFilters(NameQuery(field, v).filters, e, names) <==> MatchFilter(f, e, names);
  }

  /** An event with that name. */
  function Named(field: Field, name: string, time: int): Event {
    var e := BLANK.(time := time);
    match field
    case Datacenter => e.(datacenter := name)
    case Service => e.(serviceName := name)
    case Node => e.(nodeName := name)
    case Check => e.(checkName := name)
    case Team => e.(team := name)
    case App => e.(app := name)
    case _ => e.(version := name)
  }

  /** On a row the compiled text means the program's own matching, within the time bounds that the
      compiler adds to an open query. */
  ghost predicate CompiledMatches(q: Query, now: int, e: Event, coll: Folding) {
    Evaluate(StoredRow(e), Join(Texts(Conjuncts(q, now)), And), Concat(Groups(Conjuncts(q, now))), coll)
    == Some(Match(Stored(e), q, coll) && MIN_TIME <= e.time && e.time <= now)
  }

  lemma NameQueryOnRow(field: Field, v: string, now: int, e: Event, coll: Folding)
    requires IsName(field)
    ensures CompiledMatches(NameQuery(field, v), now, e, coll) <==>
              MatchName(NameOfField(field, Stored(e)), v, coll) == MatchName(NameOfField(field, Stored(e)), v, EXACT)
              || !(MIN_TIME <= e.time <= now)
  {
    CompilerCorrect(NameQuery(field, v), now, e, coll);
    NameQueryMatches(field, v, Stored(e), coll, coll);
    NameQueryMatches(field, v, Stored(e), EXACT, coll);
    hide Evaluate;
    hide Conjuncts;
    hide MatchName;
    hide MatchUnder;
  }

  /** For the query for one name the compiled text means the program's own matching on every
      stored row exactly when no other character folds onto one of those compared. */
  lemma NameQueryCompiles(field: Field, v: string, now: int, coll: Folding)
    requires IsName(field) && MIN_TIME <= now
    ensures (forall e :: CompiledMatches(NameQuery(field, v), now, e, coll)) <==> Unambiguous(Literal(v), coll)
  {
    hide Unambiguous;
    hide CompiledMatches;
    hide MatchName;
    if Unambiguous(Literal(v), coll) {
      forall e
        ensures CompiledMatches(NameQuery(field, v), now, e, coll)
      {
        NameQueryOnRow(field, v, now, e, coll);
        UnambiguousMatches(NameOfField(field, Stored(e)), v, coll);
      }
    } else {
      CollationShows(v, coll);
      var name :| MatchName(name, v, coll) != MatchName(name, v, EXACT);
      NameQueryOnRow(field, v, now, Named(field, name, now), coll);
    }
  }
}
