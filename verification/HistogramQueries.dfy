/** What a histogram asks the database (storage/mysql/query.go): one of two grouping statements, and
    what an answer to it is. */
module HistogramQueries {
  import opened Wrappers
  import opened Timeline
  import opened Queries
  import opened Arithmetic
  import opened Counting
  import opened Sequences
  import opened Sql
  import opened MysqlStore
  import C = QueryCompiler
  import H = Histogram
  import Decimal

  /** `bounds`, with the last hour in place of an open start. */
  function Range(q: Query, now: int): (int, int) {
    var (from, to) := C.Bounds(q, now);
    (if from == C.MIN_TIME then to - HOUR else from, to)
  }

  function ClampBuckets(n: int): int {
    if n <= 0 then 60 else if n > 500 then 500 else n
  }

  predicate OnlyDatacenters(filters: seq<Filter>) {
    forall f | f in filters :: f.field == Datacenter
  }

  predicate UsesRollup(q: Query, now: int) {
    var (from, to) := Range(q, now);
    OnlyDatacenters(q.filters) && q.text == "" && H.Sub(to, from) >= H.ROLLUP_MIN_RANGE
  }

  function BucketWidth(q: Query, now: int, buckets: int): (w: int)
    ensures w > 0
  {
    var (from, to) := Range(q, now);
    var span := H.Sub(to, from);
    if UsesRollup(q, now) then H.RollupWidth(span, ClampBuckets(buckets)) else H.Width(span, ClampBuckets(buckets))
  }

  /** The grouped column as text, and the bucket key read back from it. */
  function RawKey(split: Split, dc: string, status: int): string {
    if split == ByDatacenter then dc else Decimal.Format(status)
  }

  function SplitKey(split: Split, raw: string): string {
    if split == ByDatacenter then raw else StatusName(C.OrZero(Decimal.Parse(raw)))
  }

  predicate StatusFits(e: Event) {
    Decimal.MIN_INT64 <= e.NewStatus() <= Decimal.MAX_INT64
  }

  /** A group of the query's answer: a minute or a bucket number, and the grouped column. */
  type Group = (int, string)
  type Answer = seq<(Group, nat)>

  /** WHERE minute BETWEEN ? AND ? and the datacenter conditions. */
  function RollupCondition(q: Query, now: int, coll: Folding): RollupKey -> bool {
    (k: RollupKey) => MinuteOf(Range(q, now).0) <= k.minute <= Range(q, now).1 && InDatacenter(k.dc, q, coll)
  }

  predicate InDatacenter(dc: string, q: Query, coll: Folding) {
    && (q.datacenter != "" ==> Fold(dc, coll) == Fold(q.datacenter, coll))
    && forall f | f in q.filters :: (exists v | v in f.values :: MatchName(dc, v, coll)) != f.negated
  }

  function RollupGroup(split: Split): RollupKey -> Group {
    (k: RollupKey) => (k.minute, RawKey(split, k.dc, k.status))
  }

  /** FLOOR((UNIX_TIMESTAMP(time) - ?) / ?): whole seconds of the start, seconds of the width. */
  function RowGroup(from: int, width: int, split: Split): Event -> Group
    requires width > 0
  {
    (e: Event) => ((e.time - (from - from % SECOND)) / width, RawKey(split, e.datacenter, e.NewStatus()))
  }

  function Matches(q: Query, now: int, coll: Folding): Event -> bool {
    (e: Event) => C.SqlMatch(q, now, C.StoredRow(e), coll)
  }

  // ---- the statements --------------------------------------------------------

  /** SELECT ... WHERE text GROUP BY ..., with its arguments, from the rollup or from the rows. */
  datatype Statement = Statement(fromRollup: bool, split: Split, text: Text, args: seq<Arg>)

  const MINUTE_TEXT: Text := [Col(Minute), Between, Param, And, Param]

  /** The conjuncts of the rollup statement; the filters are on datacenters only. */
  function RollupConjuncts(q: Query, now: int): seq<(Text, seq<Arg>)> {
    [(MINUTE_TEXT, [Num(MinuteOf(Range(q, now).0)), Num(Range(q, now).1)])]
    + (if q.datacenter != "" then [([Col(Dc), Equals, Param], [Str(q.datacenter)])] else [])
    + C.FilterConjuncts(q.filters)
  }

  function UnixSeconds(t: int): int {
    (t - UNIX_EPOCH) / SECOND
  }

  /** The start and the width in seconds number the buckets; the sample limits the rows. */
  function StatementOf(q: Query, buckets: int, split: Split, now: int, sample: nat): Statement {
    if UsesRollup(q, now) then
      Statement(true, split, Join(C.Texts(RollupConjuncts(q, now)), And), Concat(C.Groups(RollupConjuncts(q, now))))
    else
      Statement(false, split, Join(C.Texts(C.Conjuncts(q, now)), And),
                [Num(UnixSeconds(Range(q, now).0)), Num(BucketWidth(q, now, buckets) / SECOND)]
                + Concat(C.Groups(C.Conjuncts(q, now))) + [Num(sample)])
  }

  method BuildRollupWhere(q: Query, now: int) returns (text: Text, args: seq<Arg>)
    ensures text == Join(C.Texts(RollupConjuncts(q, now)), And)
    ensures args == Concat(C.Groups(RollupConjuncts(q, now)))
  {
    hide Concat;
    hide Join;
    hide C.FilterText;
    hide C.FilterArgs;
    hide Range;
    ghost var all := RollupConjuncts(q, now);
    var (from, to) := Range(q, now);
    var conds := [MINUTE_TEXT];
    args := [Num(MinuteOf(from)), Num(to)];
    hide MinuteOf;
    ghost var done := 1;
    C.Extended(all, 0);
    C.NothingConcatenated(all);
    if q.datacenter != "" {
      conds := conds + [[Col(Dc), Equals, Param]];
      C.Extended(all, done);
      args := args + [Str(q.datacenter)];
      done := done + 1;
    }
    ghost var base := done;
    for k := 0 to |q.filters|
      invariant done == base + k
      invariant conds == C.Texts(all[..done]) && args == Concat(C.Groups(all[..done]))
    {
      assert all[done] == C.FilterConjuncts(q.filters)[k];
      var filterText, filterArgs := C.FilterSQL(q.filters[k]);
      conds := conds + [filterText];
      C.Extended(all, done);
      args := args + filterArgs;
      done := done + 1;
    }
    assert all[..done] == all;
    text := Join(conds, And);
  }

  method BuildStatement(q: Query, buckets: int, split: Split, now: int, sample: nat) returns (s: Statement)
    ensures s == StatementOf(q, buckets, split, now, sample)
  {
    hide C.Conjuncts;
    hide RollupConjuncts;
    hide Range;
    hide BucketWidth;
    if UsesRollup(q, now) {
      var text, args := BuildRollupWhere(q, now);
      s := Statement(true, split, text, args);
    } else {
      var text, args := C.BuildWhere(q, now);
      s := Statement(false, split, text,
                     [Num(UnixSeconds(Range(q, now).0)), Num(BucketWidth(q, now, buckets) / SECOND)]
                     + args + [Num(sample)]);
    }
  }

  // ---- what answers them -----------------------------------------------------

  /** A row of the rollup, as the condition reads it. */
  function RollupRow(k: RollupKey): Row {
    Row(BLANK.(time := k.minute, datacenter := k.dc, kind := k.kind), STATUS_UNKNOWN, k.status)
  }

  function RollupSelects(text: Text, args: seq<Arg>, coll: Folding): RollupKey -> bool {
    (k: RollupKey) => Evaluate(RollupRow(k), text, args, coll) == Some(true)
  }

  function RowSelects(text: Text, args: seq<Arg>, coll: Folding): Event -> bool {
    (e: Event) => Evaluate(C.StoredRow(e), text, args, coll) == Some(true)
  }

  /** Sums per group of the rollup rows the condition holds for. */
  ghost predicate AnswersRollup(answer: Answer, listing: seq<(RollupKey, nat)>, s: Statement, coll: Folding) {
    s.fromRollup && Grouped(answer, listing, RollupSelects(s.text, s.args, coll), RollupGroup(s.split))
  }

  /** The newest rows a condition holds for, up to a limit; among rows of one time any may be taken. */
  ghost predicate Newest(inner: seq<Event>, table: seq<Event>, sel: Event -> bool, limit: nat) {
    && multiset(inner) <= multiset(table)
    && (forall e | e in inner :: sel(e))
    && |inner| == (if Count(table, sel) > limit then limit else Count(table, sel))
    && (forall e, left | e in inner && left in table && sel(left) && multiset(inner)[left] < multiset(table)[left] ::
          left.time <= e.time)
  }

  /** FLOOR((UNIX_TIMESTAMP(time) - ?) / ?) and the grouped column. */
  function NumberedBy(start: int, seconds: int, split: Split): Event -> Group
    requires seconds > 0
  {
    (e: Event) => ((e.time - UNIX_EPOCH - start * SECOND) / (seconds * SECOND),
                   RawKey(split, e.datacenter, e.NewStatus()))
  }

  const EVERY_SAMPLE: Event -> bool := (e: Event) => true

  /** Counts per group of the rows that the inner select takes. */
  ghost predicate AnswersRows(answer: Answer, inner: seq<Event>, table: seq<Event>, s: Statement, coll: Folding) {
    var n := |s.args|;
    && !s.fromRollup && n >= 3 && s.args[0].Num? && s.args[1].Num? && s.args[1].n > 0 && s.args[n - 1].Num?
    && s.args[n - 1].n >= 0
    && Newest(inner, table, RowSelects(s.text, s.args[2..n - 1], coll), s.args[n - 1].n)
    && Tabulates(answer, inner, EVERY_SAMPLE, NumberedBy(s.args[0].n, s.args[1].n, s.split), (g: Group) => true)
  }

  lemma RollupDenotes(q: Query, now: int, k: RollupKey, coll: Folding) returns (bs: seq<bool>)
    requires ValidQuery(q) && OnlyDatacenters(q.filters)
    ensures C.Denote(RollupConjuncts(q, now), RollupRow(k), coll, bs) && bs != []
    ensures AllTrue(bs) <==> RollupCondition(q, now, coll)(k)
  {
    hide Means;
    hide AllTrue;
    hide MatchName;
    var row := RollupRow(k);
    var (from, to) := Range(q, now);
    hide Range;
    var time, dc := [MinuteOf(from) <= k.minute <= to], [];
    var timeC, dcC := [(MINUTE_TEXT, [Num(MinuteOf(from)), Num(to)])], [];
    BetweenMeans(row, coll, Minute, MinuteOf(from), to);
    hide MinuteOf;
    if q.datacenter != "" {
      dc := [Fold(k.dc, coll) == Fold(q.datacenter, coll)];
      dcC := [([Col(Dc), Equals, Param], [Str(q.datacenter)])];
      ComparisonMeans(row, coll, Dc, Equals, Str(q.datacenter));
    }
    var kept := C.FiltersDenote(q.filters, row, coll);
    C.DenoteAppend(timeC, dcC, row, coll, time, dc);
    C.DenoteAppend(timeC + dcC, C.FilterConjuncts(q.filters), row, coll, time + dc, kept);
    bs := time + dc + kept;
    C.AllTrueAppend(time, dc);
    C.AllTrueAppend(time + dc, kept);
    C.AllTrueShort(time);
    C.AllTrueShort(dc);
    forall f | f in q.filters
      ensures C.SqlFilter(f, row, coll) <==> exists v | v in f.values :: MatchName(k.dc, v, coll)
    {
      assert f.field == Datacenter;
      assert forall v :: C.SqlOne(f.field, row, v, coll) <==> MatchName(k.dc, v, coll);
    }
    hide C.SqlFilter;
    hide Fold;
  }

  /** The rollup statement's condition, evaluated with its arguments, is the condition on keys. */
  lemma RollupTextMeans(q: Query, now: int, k: RollupKey, coll: Folding)
    requires ValidQuery(q) && OnlyDatacenters(q.filters)
    ensures Evaluate(RollupRow(k), Join(C.Texts(RollupConjuncts(q, now)), And),
                     Concat(C.Groups(RollupConjuncts(q, now))), coll)
         == Some(RollupCondition(q, now, coll)(k))
  {
    hide RollupCondition;
    hide RollupConjuncts;
    hide Evaluate;
    var bs := RollupDenotes(q, now, k, coll);
    C.DenotedMeaning(RollupConjuncts(q, now), RollupRow(k), coll, bs);
  }

  /** So an answer to it sums the rollup over the condition. */
  lemma RollupAnswered(q: Query, buckets: int, split: Split, now: int, sample: nat, answer: Answer,
                       listing: seq<(RollupKey, nat)>, coll: Folding)
    requires ValidQuery(q) && UsesRollup(q, now)
    requires AnswersRollup(answer, listing, StatementOf(q, buckets, split, now, sample), coll)
    ensures Grouped(answer, listing, RollupCondition(q, now, coll), RollupGroup(split))
  {
    var s := StatementOf(q, buckets, split, now, sample);
    hide RollupConjuncts;
    hide RollupCondition;
    hide Evaluate;
    hide Grouped;
    assert OnlyDatacenters(q.filters);
    forall k: RollupKey
      ensures RollupSelects(s.text, s.args, coll)(k) == RollupCondition(q, now, coll)(k)
    {
      RollupTextMeans(q, now, k, coll);
    }
    GroupedSame(answer, listing, RollupSelects(s.text, s.args, coll), RollupCondition(q, now, coll),
                RollupGroup(split));
  }

  lemma WholeSeconds(from: int, width: int)
    requires width % SECOND == 0
    ensures UNIX_EPOCH + UnixSeconds(from) * SECOND == from - from % SECOND && (width / SECOND) * SECOND == width
  {}

  lemma WidthInSeconds(q: Query, now: int, buckets: int)
    requires !UsesRollup(q, now)
    ensures BucketWidth(q, now, buckets) % SECOND == 0 && BucketWidth(q, now, buckets) / SECOND > 0
  {
    hide UsesRollup;
    hide Range;
    var (from, to) := Range(q, now);
    var n := ClampBuckets(buckets);
    H.WholeUnitsWhole(H.Quotient(H.Wrapped(H.Sub(to, from) + n - 1), n), SECOND);
    var width := BucketWidth(q, now, buckets);
    assert width == H.Width(H.Sub(to, from), n);
    hide BucketWidth;
    hide H.Width;
    DivisionBounds(width, SECOND);
  }

  /** Among the selected rows, only what is selected and the groups matter to a tabulation. */
  lemma TabulatesSame(answer: Answer, inner: seq<Event>, sel: Event -> bool, groupOf: Event -> Group,
                      sel2: Event -> bool, groupOf2: Event -> Group)
    requires Tabulates(answer, inner, sel, groupOf, (g: Group) => true)
    requires forall e | e in inner :: sel(e) == sel2(e) && groupOf(e) == groupOf2(e)
    ensures Tabulates(answer, inner, sel2, groupOf2, (g: Group) => true)
  {
    forall i | 0 <= i < |answer|
      ensures answer[i].1 == Count(inner, WithKey(sel2, groupOf2, answer[i].0))
    {
      CountSame(inner, WithKey(sel, groupOf, answer[i].0), WithKey(sel2, groupOf2, answer[i].0));
    }
  }

  lemma NewestSame(inner: seq<Event>, table: seq<Event>, sel: Event -> bool, sel2: Event -> bool, limit: nat)
    requires Newest(inner, table, sel, limit) && forall e :: sel(e) == sel2(e)
    ensures Newest(inner, table, sel2, limit)
  {
    CountSame(table, sel, sel2);
  }

  lemma SameNumber(q: Query, now: int, buckets: int, split: Split, e: Event)
    requires !UsesRollup(q, now)
    ensures var from := Range(q, now).0;
            var width := BucketWidth(q, now, buckets);
            && width / SECOND > 0
            && NumberedBy(UnixSeconds(from), width / SECOND, split)(e) == RowGroup(from, width, split)(e)
  {
    WidthInSeconds(q, now, buckets);
    hide UsesRollup;
    hide BucketWidth;
    hide RawKey;
    var from := Range(q, now).0;
    hide Range;
    WholeSeconds(from, BucketWidth(q, now, buckets));
    hide UnixSeconds;
  }

  lemma RowArgs(a: Arg, b: Arg, args: seq<Arg>, c: Arg)
    ensures var all := [a, b] + args + [c];
            && |all| == |args| + 3 && all[0] == a && all[1] == b && all[|all| - 1] == c && all[2..|all| - 1] == args
  {}

  lemma RowSelectsMatches(q: Query, now: int, coll: Folding, e: Event)
    requires ValidQuery(q)
    ensures RowSelects(Join(C.Texts(C.Conjuncts(q, now)), And), Concat(C.Groups(C.Conjuncts(q, now))), coll)(e)
            == Matches(q, now, coll)(e)
  {
    hide Evaluate;
    hide C.Conjuncts;
    hide C.SqlMatch;
    C.CompiledMeaning(q, now, C.StoredRow(e), coll);
  }

  /** An answer to the row statement counts the newest matching rows by bucket and key. */
  lemma RowsAnswered(q: Query, buckets: int, split: Split, now: int, sample: nat, answer: Answer, inner: seq<Event>,
                     table: seq<Event>, coll: Folding)
    requires ValidQuery(q) && !UsesRollup(q, now)
    requires AnswersRows(answer, inner, table, StatementOf(q, buckets, split, now, sample), coll)
    ensures Newest(inner, table, Matches(q, now, coll), sample)
    ensures Tabulates(answer, inner, Matches(q, now, coll),
                      RowGroup(Range(q, now).0, BucketWidth(q, now, buckets), split), (g: Group) => true)
  {
    hide C.Conjuncts;
    hide Tabulates;
    hide Newest;
    var from, width := Range(q, now).0, BucketWidth(q, now, buckets);
    var text, args := Join(C.Texts(C.Conjuncts(q, now)), And), Concat(C.Groups(C.Conjuncts(q, now)));
    RowArgs(Num(UnixSeconds(from)), Num(width / SECOND), args, Num(sample));
    WidthInSeconds(q, now, buckets);
    RowsAnsweredBy(q, buckets, split, now, sample, answer, inner, table, coll, text, args);
  }

  lemma RowsAnsweredBy(q: Query, buckets: int, split: Split, now: int, sample: nat, answer: Answer, inner: seq<Event>,
                       table: seq<Event>, coll: Folding, text: Text, args: seq<Arg>)
    requires ValidQuery(q) && !UsesRollup(q, now)
    requires text == Join(C.Texts(C.Conjuncts(q, now)), And) && args == Concat(C.Groups(C.Conjuncts(q, now)))
    requires Newest(inner, table, RowSelects(text, args, coll), sample)
    requires BucketWidth(q, now, buckets) / SECOND > 0
    requires Tabulates(answer, inner, EVERY_SAMPLE,
                       NumberedBy(UnixSeconds(Range(q, now).0), BucketWidth(q, now, buckets) / SECOND, split),
                       (g: Group) => true)
    ensures Newest(inner, table, Matches(q, now, coll), sample)
    ensures Tabulates(answer, inner, Matches(q, now, coll),
                      RowGroup(Range(q, now).0, BucketWidth(q, now, buckets), split), (g: Group) => true)
  {
    hide C.Conjuncts;
    hide UsesRollup;
    hide Range;
    hide BucketWidth;
    hide Matches;
    hide NumberedBy;
    hide RowGroup;
    hide Tabulates;
    var from, width := Range(q, now).0, BucketWidth(q, now, buckets);
    forall e: Event
      ensures RowSelects(text, args, coll)(e) == Matches(q, now, coll)(e)
    {
      RowSelectsMatches(q, now, coll, e);
    }
    NewestSame(inner, table, RowSelects(text, args, coll), Matches(q, now, coll), sample);
    forall e | e in inner
      ensures EVERY_SAMPLE(e) == Matches(q, now, coll)(e)
      ensures NumberedBy(UnixSeconds(from), width / SECOND, split)(e) == RowGroup(from, width, split)(e)
    {
      SameNumber(q, now, buckets, split, e);
    }
    hide Newest;
    hide RowSelects;
    TabulatesSame(answer, inner, EVERY_SAMPLE, NumberedBy(UnixSeconds(from), width / SECOND, split),
                  Matches(q, now, coll), RowGroup(from, width, split));
  }

  /** When there are no more matching rows than the sample, the inner select takes them all. */
  lemma SampleIsWhole(inner: seq<Event>, table: seq<Event>, sel: Event -> bool, limit: nat, p: Event -> bool)
    requires Newest(inner, table, sel, limit) && Count(table, sel) <= limit
    ensures Count(inner, p) == Count(table, AndAlso(sel, p))
  {
    WholeBagCounts(inner, table, sel, p);
  }
}
