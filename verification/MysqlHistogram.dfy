/** Histograms from the database (storage/mysql/query.go), which come from two sources: the rows,
    or the rollup when the range is long and only datacenters are filtered. */
module MysqlHistogram {
  import opened Wrappers
  import opened Timeline
  import opened Queries
  import opened Arithmetic
  import opened Counting
  import opened MysqlTables
  import opened MysqlStore
  import opened HistogramQueries
  import C = QueryCompiler
  import H = Histogram
  import Decimal

  lemma SplitKeyIsBucketKey(e: Event, split: Split)
    requires StatusFits(e)
    ensures SplitKey(split, RawKey(split, e.datacenter, e.NewStatus())) == BucketKey(e, split)
  {
    Decimal.ParseFormat(e.NewStatus());
  }

  /** The slot of a group: the rollup's minutes are bucketed here, the rows already were. */
  function SlotOfGroup(q: Query, now: int, width: int, split: Split): Group -> (int, string)
    requires width > 0
  {
    var from := Range(q, now).0;
    if UsesRollup(q, now) then (g: Group) => (H.Index(g.0, from, width), SplitKey(split, g.1))
    else (g: Group) => (H.Index(from + g.0 * width, from, width), SplitKey(split, g.1))
  }

  function Mapped<K, L>(table: seq<(K, nat)>, f: K -> L): seq<(L, nat)> {
    seq(|table|, i requires 0 <= i < |table| => (f(table[i].0), table[i].1))
  }

  lemma {:induction false} MappedTotal<K, L>(table: seq<(K, nat)>, f: K -> L, p: L -> bool)
    ensures Total(Mapped(table, f), p) == Total(table, Onto(f, p))
  {
    if table != [] {
      MappedTotal(table[..|table| - 1], f, p);
      assert Mapped(table, f)[..|table| - 1] == Mapped(table[..|table| - 1], f);
    }
  }

  datatype Result = Rejected | Crashed | Failed | Buckets(buckets: seq<H.Bucket>, sampled: bool)

  function Sum(answer: Answer): nat {
    if answer == [] then 0 else Sum(answer[..|answer| - 1]) + answer[|answer| - 1].1
  }

  /** What the method makes of the database's answer to its statement. */
  ghost predicate Filled(r: Result, q: Query, buckets: int, split: Split, now: int, answer: Option<Answer>,
                         sample: nat) {
    match answer
    case None => r == Failed
    case Some(a) =>
      var (from, to) := Range(q, now);
      var width := BucketWidth(q, now, buckets);
      && r.Buckets?
      && |r.buckets| == H.BucketCount(H.Sub(to, from), width)
      && (r.sampled <==> !UsesRollup(q, now) && Sum(a) >= sample)
      && H.Filled(r.buckets, from, width, Mapped(a, SlotOfGroup(q, now, width, split)))
  }

  /** `Histogram`, over a database given as its answer to every statement. */
  method Histogram(q: Query, buckets: int, split: Split, now: int, db: Statement -> Option<Answer>, sample: nat)
    returns (r: Result)
    ensures r.Rejected? <==> !ValidQuery(q)
    ensures ValidQuery(q) ==>
              var (from, to) := Range(q, now);
              if H.Sub(to, from) <= 0 then r == Buckets([], false)
              else if H.BucketCount(H.Sub(to, from), BucketWidth(q, now, buckets)) < 0 then r == Crashed
              else Filled(r, q, buckets, split, now, db(StatementOf(q, buckets, split, now, sample)), sample)
  {
    hide H.BucketCount;
    hide H.Sub;
    hide StatementOf;
    hide Filled;
    hide UsesRollup;
    hide BucketWidth;
    hide Range;
    hide ValidFilter;
    if !ValidQuery(q) {
      return Rejected;
    }
    var (from, to) := Range(q, now);
    var span := H.Sub(to, from);
    if span <= 0 {
      return Buckets([], false);
    }
    var width := BucketWidth(q, now, buckets);
    var n := H.BucketCount(span, width);
    if n < 0 {
      return Crashed;
    }
    var statement := BuildStatement(q, buckets, split, now, sample);
    var answer := db(statement);
    r := Fill(q, buckets, split, now, answer, sample, n);
  }

  /** Adding up the answer. */
  method Fill(q: Query, buckets: int, split: Split, now: int, answer: Option<Answer>, sample: nat, n: nat)
    returns (r: Result)
    requires var (from, to) := Range(q, now); n == H.BucketCount(H.Sub(to, from), BucketWidth(q, now, buckets))
    ensures Filled(r, q, buckets, split, now, answer, sample) && !r.Rejected?
  {
    hide H.Index;
    hide H.Add;
    hide H.Filled;
    hide H.BucketCount;
    hide SplitKey;
    if answer.None? {
      return Failed;
    }
    var groups := answer.value;
    var from := Range(q, now).0;
    var width := BucketWidth(q, now, buckets);
    var out := H.EmptyBuckets(from, width, n);
    H.EmptyFilled(from, width, n);
    var slot := SlotOfGroup(q, now, width, split);
    ghost var adds := Mapped(groups, slot);
    var total := 0;
    for k := 0 to |groups|
      invariant |out| == n && H.Filled(out, from, width, adds[..k])
      invariant total == Sum(groups[..k])
    {
      var (i, key) := slot(groups[k].0);
      H.AddFills(out, from, width, adds[..k], i, key, groups[k].1);
      assert adds[k] == ((i, key), groups[k].1) && adds[..k + 1] == adds[..k] + [adds[k]];
      assert groups[..k + 1][..k] == groups[..k];
      out := H.Add(out, i, key, groups[k].1);
      total := total + groups[k].1;
    }
    assert adds[..|groups|] == adds && groups[..|groups|] == groups;
    r := Buckets(out, !UsesRollup(q, now) && total >= sample);
  }

  lemma {:induction false} SumIsTotal(answer: Answer, p: Group -> bool)
    requires forall g :: p(g)
    ensures Sum(answer) == Total(answer, p)
  {
    if answer != [] {
      SumIsTotal(answer[..|answer| - 1], p);
    }
  }

  /** The flag is set exactly when at least as many rows match as the sample holds: without it no
      row was left out, and it is set too when the sample holds just all of them. */
  lemma SampledExactly(r: Result, q: Query, buckets: int, split: Split, now: int, sample: nat, answer: Answer,
                       inner: seq<Event>, table: seq<Event>, coll: Folding)
    requires ValidQuery(q) && !UsesRollup(q, now)
    requires AnswersRows(answer, inner, table, StatementOf(q, buckets, split, now, sample), coll)
    requires Filled(r, q, buckets, split, now, Some(answer), sample)
    ensures r.sampled <==> Count(table, Matches(q, now, coll)) >= sample
  {
    hide AnswersRows;
    hide StatementOf;
    hide UsesRollup;
    hide H.Filled;
    hide BucketWidth;
    hide RowGroup;
    hide Matches;
    var sel, group := Matches(q, now, coll), RowGroup(Range(q, now).0, BucketWidth(q, now, buckets), split);
    var all := (g: Group) => true;
    RowsAnswered(q, buckets, split, now, sample, answer, inner, table, coll);
    hide Range;
    SumIsTotal(answer, all);
    TotalIsCount(answer, inner, sel, group, all);
    CountAll(inner, Through(sel, group, all));
  }

  /** The rollup answers long ranges without a text, filtered by datacenter at most. */
  predicate FromRollup(q: Query, from: int, to: int) {
    (forall f | f in q.filters :: f.field == Datacenter) && q.text == "" && to - from >= 6 * HOUR
  }

  /** The buckets cover the range asked for, an open end being now and an open start, or one before
      all events, an hour before the end: they are of one width and follow each other from the
      start on, and the end is in or at the end of the last. The width is in whole seconds, or in
      whole minutes when the answer is from the rollup. There are as many buckets as asked for, or
      up to twice as many, if the range has that many seconds or minutes; sixty are asked for if
      none are, and at most five hundred. */
  lemma BucketsPlaced(r: Result, q: Query, buckets: int, split: Split, now: int, answer: Answer, sample: nat)
    returns (width: int)
    requires Filled(r, q, buckets, split, now, Some(answer), sample)
    requires var to := if q.to == 0 then now else q.to;
             var from := if q.from <= C.MIN_TIME then to - HOUR else q.from;
             from < to && 2 * (to - from) <= Decimal.MAX_INT64
    ensures var to := if q.to == 0 then now else q.to;
            var from := if q.from <= C.MIN_TIME then to - HOUR else q.from;
            var asked := if buckets <= 0 then 60 else if buckets > 500 then 500 else buckets;
            var unit := if FromRollup(q, from, to) then MINUTE else SECOND;
            && r.Buckets? && width > 0 && width % unit == 0
            && r.buckets != [] && (|r.buckets| - 1) * width < to - from <= |r.buckets| * width
            && (asked * unit <= to - from ==> asked <= |r.buckets| <= 2 * asked)
            && forall i | 0 <= i < |r.buckets| :: r.buckets[i].start == from + i * width
  {
    hide C.SqlMatch;
    hide H.Sub;
    var to := if q.to == 0 then now else q.to;
    var from := if q.from <= C.MIN_TIME then to - HOUR else q.from;
    width := WidthChosen(q, now, buckets, from, to);
    hide BucketWidth;
    hide H.BucketCount;
    hide FromRollup;
    hide ClampBuckets;
    NextMultiple(|r.buckets|, width);
  }

  lemma WidthChosen(q: Query, now: int, buckets: int, from: int, to: int) returns (width: int)
    requires to == (if q.to == 0 then now else q.to) && from == if q.from <= C.MIN_TIME then to - HOUR else q.from
    requires from < to && 2 * (to - from) <= Decimal.MAX_INT64
    ensures Range(q, now) == (from, to) && H.Sub(to, from) == to - from && width == BucketWidth(q, now, buckets)
    ensures var unit := if FromRollup(q, from, to) then MINUTE else SECOND;
            var asked := if buckets <= 0 then 60 else if buckets > 500 then 500 else buckets;
            var n := H.BucketCount(to - from, width);
            && width > 0 && width % unit == 0 && n >= 1 && (n - 1) * width < to - from <= n * width
            && (asked * unit <= to - from ==> asked <= n <= 2 * asked)
  {
    hide H.Width;
    hide H.RollupWidth;
    hide H.BucketCount;
    var asked := ClampBuckets(buckets);
    width := BucketWidth(q, now, buckets);
    if FromRollup(q, from, to) {
      H.RollupCovers(to - from, asked);
    } else {
      H.WidthCovers(to - from, asked);
    }
  }

  /** Which of the two statements is asked for. */
  lemma StatementChosen(q: Query, buckets: int, split: Split, now: int, sample: nat)
    requires var to := if q.to == 0 then now else q.to;
             var from := if q.from <= C.MIN_TIME then to - HOUR else q.from;
             to - from <= Decimal.MAX_INT64
    ensures var to := if q.to == 0 then now else q.to;
            var from := if q.from <= C.MIN_TIME then to - HOUR else q.from;
            StatementOf(q, buckets, split, now, sample).fromRollup <==> FromRollup(q, from, to)
  {
    hide C.Conjuncts;
    hide RollupConjuncts;
    hide BucketWidth;
  }

  // ---- what the answers count ------------------------------------------------

  /** The matching rows in a half-open stretch of time. */
  function Within(q: Query, now: int, coll: Folding, start: int, end: int): Event -> bool {
    (e: Event) => C.SqlMatch(q, now, C.StoredRow(e), coll) && start <= e.time < end
  }

  function WithinAs(q: Query, now: int, coll: Folding, start: int, end: int, split: Split, key: string): Event -> bool {
    (e: Event) => C.SqlMatch(q, now, C.StoredRow(e), coll) && start <= e.time < end && BucketKey(e, split) == key
  }

  /** Buckets filled from an answer count, for each bucket and key, the elements whose group falls
      there. */
  lemma AnswerCounts(out: seq<H.Bucket>, from: int, width: int, answer: Answer, slot: Group -> (int, string),
                     rows: seq<Event>, sel: Event -> bool, groupOf: Event -> Group, i: nat, key: string,
                     whole: Event -> bool, part: Event -> bool)
    requires H.Filled(out, from, width, Mapped(answer, slot)) && i < |out|
    requires Tabulates(answer, rows, sel, groupOf, (g: Group) => true)
    requires forall e | e in rows :: whole(e) == (sel(e) && slot(groupOf(e)).0 == i)
    requires forall e | e in rows :: part(e) == (sel(e) && slot(groupOf(e)).0 == i && slot(groupOf(e)).1 == key)
    ensures out[i].total == Count(rows, whole) && H.Get(out[i].parts, key) == Count(rows, part)
  {
    var at, cell := Onto(slot, H.AtIndex(i)), Onto(slot, H.AtCell(i, key));
    MappedTotal(answer, slot, H.AtIndex(i));
    MappedTotal(answer, slot, H.AtCell(i, key));
    TotalIsCount(answer, rows, sel, groupOf, at);
    TotalIsCount(answer, rows, sel, groupOf, cell);
    CountSame(rows, Through(sel, groupOf, at), whole);
    CountSame(rows, Through(sel, groupOf, cell), part);
  }

  lemma MinuteBounds(t: int)
    ensures MinuteOf(t) <= t < MinuteOf(t) + MINUTE && MinuteOf(t) % MINUTE == 0
  {}

  /** Cutting a time to its minute does not move it across a minute boundary. */
  lemma SameSide(t: int, bound: int)
    requires bound % MINUTE == 0
    ensures bound <= MinuteOf(t) <==> bound <= t
  {
    assert t == (t / MINUTE) * MINUTE + t % MINUTE && bound == (bound / MINUTE) * MINUTE;
  }

  lemma AlignedBound(from: int, width: int, i: int)
    requires from % MINUTE == 0 && width % MINUTE == 0
    ensures (from + i * width) % MINUTE == 0
  {
    var a, b := from / MINUTE, width / MINUTE;
    assert from == a * MINUTE && width == b * MINUTE;
    assert i * width == (i * b) * MINUTE by {
      assert i * (b * MINUTE) == (i * b) * MINUTE;
    }
    assert from + i * width == (a + i * b) * MINUTE;
    MultipleHasNoRemainder(a + i * b, MINUTE);
  }

  /** On datacenter filters alone, the rollup's condition on a row's key is the row's own. */
  lemma KeyConditionIsRowCondition(q: Query, now: int, e: Event, coll: Folding)
    requires ValidQuery(q) && OnlyDatacenters(q.filters) && q.text == ""
    ensures C.SqlMatch(q, now, C.StoredRow(e), coll) <==>
              C.Bounds(q, now).0 <= e.time <= C.Bounds(q, now).1 && InDatacenter(e.datacenter, q, coll)
  {
    hide MatchName;
    forall f | f in q.filters
      ensures C.SqlFilter(f, C.StoredRow(e), coll) <==> exists v | v in f.values :: MatchName(e.datacenter, v, coll)
    {
      assert f.field == Datacenter;
      assert forall v :: C.SqlOne(f.field, C.StoredRow(e), v, coll) <==> MatchName(e.datacenter, v, coll);
    }
  }

  /** The rollup refines the rows: for a start on a minute, every bucket wholly inside the range
      counts, in all and by key, exactly the matching rows of its stretch of time. */
  lemma RollupRefinesRows(t: Table, r: Rollup, cutoff: int, listing: seq<(RollupKey, nat)>, answer: Answer,
                          out: seq<H.Bucket>,
                          q: Query, now: int, buckets: int, split: Split, coll: Folding, i: nat, key: string)
    requires RollupHolds(t, r, cutoff) && IsListing(listing, r) && forall e | e in Rows(t) :: StatusFits(e)
    requires Grouped(answer, listing, RollupCondition(q, now, coll), RollupGroup(split))
    requires ValidQuery(q) && UsesRollup(q, now)
    requires var (from, to) := Range(q, now);
             var width := BucketWidth(q, now, buckets);
             && cutoff <= from && from % MINUTE == 0
             && i < |out| && |out| * width <= Decimal.MAX_INT64 && from + (i + 1) * width <= to
             && H.Filled(out, from, width, Mapped(answer, SlotOfGroup(q, now, width, split)))
    ensures var from := Range(q, now).0;
            var width := BucketWidth(q, now, buckets);
            && out[i].total == Count(Rows(t), Within(q, now, coll, from + i * width, from + (i + 1) * width))
            && H.Get(out[i].parts, key)
               == Count(Rows(t), WithinAs(q, now, coll, from + i * width, from + (i + 1) * width, split, key))
  {
    hide H.Index;
    hide H.Filled;
    hide RollupHolds;
    hide Rows;
    hide IsListing;
    hide C.SqlMatch;
    hide C.StoredRow;
    hide BucketKey;
    hide Tabulates;
    hide BucketWidth;
    hide SlotOfGroup;
    hide Mapped;
    hide Grouped;
    hide Range;
    hide UsesRollup;
    var from := Range(q, now).0;
    var width := BucketWidth(q, now, buckets);
    var start, end := from + i * width, from + (i + 1) * width;
    var cond, group, slot := RollupCondition(q, now, coll), RollupGroup(split), SlotOfGroup(q, now, width, split);
    ConditionUnexpired(q, now, coll, cutoff);
    RollupTabulates(t, r, cutoff, listing, cond);
    GroupedTabulates(answer, listing, Rows(t), EVERY_ROW, ROW_KEY, cond, group);
    var sel, groupOf := Onto(ROW_KEY, cond), Compose(ROW_KEY, group);
    var whole, part := Within(q, now, coll, start, end), WithinAs(q, now, coll, start, end, split, key);
    forall e | e in Rows(t)
      ensures whole(e) == (sel(e) && slot(groupOf(e)).0 == i)
      ensures part(e) == (sel(e) && slot(groupOf(e)).0 == i && slot(groupOf(e)).1 == key)
    {
      RollupRow(q, now, buckets, split, coll, i, |out|, e);
    }
    AnswerCounts(out, from, width, answer, slot, Rows(t), sel, groupOf, i, key, whole, part);
  }

  lemma ConditionUnexpired(q: Query, now: int, coll: Folding, cutoff: int)
    requires cutoff <= Range(q, now).0 && Range(q, now).0 % MINUTE == 0
    ensures forall key | RollupCondition(q, now, coll)(key) :: cutoff <= key.minute
  {
    AlignedStart(Range(q, now).0);
  }

  lemma AlignedStart(from: int)
    requires from % MINUTE == 0
    ensures MinuteOf(from) == from
  {}

  /** A row lands in a bucket through its minute exactly when its own time is in the bucket. */
  lemma RollupRow(q: Query, now: int, buckets: int, split: Split, coll: Folding, i: nat, n: nat, e: Event)
    requires ValidQuery(q) && UsesRollup(q, now) && StatusFits(e)
    requires var (from, to) := Range(q, now);
             var width := BucketWidth(q, now, buckets);
             from % MINUTE == 0 && i < n && n * width <= Decimal.MAX_INT64 && from + (i + 1) * width <= to
    ensures var (from, to) := Range(q, now);
            var width := BucketWidth(q, now, buckets);
            var k := KeyOf(e);
            var slot := SlotOfGroup(q, now, width, split)(RollupGroup(split)(k));
            && (RollupCondition(q, now, coll)(k) && slot.0 == i <==>
                  C.SqlMatch(q, now, C.StoredRow(e), coll) && from + i * width <= e.time < from + (i + 1) * width)
            && slot.1 == BucketKey(e, split)
  {
    hide C.SqlMatch;
    hide InDatacenter;
    hide H.Index;
    hide BucketKey;
    hide SplitKey;
    var (from, to) := Range(q, now);
    var width := BucketWidth(q, now, buckets);
    var m := MinuteOf(e.time);
    KeyConditionIsRowCondition(q, now, e, coll);
    SplitKeyIsBucketKey(e, split);
    AlignedStart(from);
    WidthInMinutes(q, now, buckets);
    RangeIsBounds(q, now);
    AlignedBound(from, width, i);
    AlignedBound(from, width, i + 1);
    SameSide(e.time, from + i * width);
    SameSide(e.time, from + (i + 1) * width);
    SameSide(e.time, from);
    MinuteBounds(e.time);
    H.IndexIsBucket(m, from, width, n, i);
    H.LastBucketFits(i, n, width);
  }

  lemma WidthInMinutes(q: Query, now: int, buckets: int)
    requires UsesRollup(q, now)
    ensures BucketWidth(q, now, buckets) % MINUTE == 0
  {
    var (from, to) := Range(q, now);
    H.WholeUnitsBounds(H.Width(H.Sub(to, from), ClampBuckets(buckets)), MINUTE);
  }

  /** A range long enough for the rollup never starts at the lower bound of all times. */
  lemma RangeIsBounds(q: Query, now: int)
    requires UsesRollup(q, now)
    ensures Range(q, now) == C.Bounds(q, now)
  {}

  /** For any start, each row counted from the rollup lands in its own bucket or the one before;
      rows of the start's own minute, up to a minute early, land in the first. */
  lemma RollupOffByOne(t: int, from: int, width: int)
    requires width >= MINUTE && MinuteOf(from) <= MinuteOf(t) && t - from <= Decimal.MAX_INT64
    ensures 0 <= H.Index(MinuteOf(t), from, width)
    ensures H.Index(t, from, width) - 1 <= H.Index(MinuteOf(t), from, width) <= H.Index(t, from, width)
    ensures t < from ==> H.Index(MinuteOf(t), from, width) == 0
  {
    var d, m := t - from, MinuteOf(t) - from;
    MinuteBounds(t);
    MinuteBounds(from);
    assert -MINUTE < m <= d < m + MINUTE;
    DivisionMonotone(m, d, width);
  }

  lemma QuotientOfPositive(d: int, width: int)
    requires width > 0 && d >= 0
    ensures H.Quotient(d, width) == d / width
  {}

  lemma DivisionMonotone(m: int, d: int, width: int)
    requires width > 0 && -width < m <= d < m + width
    ensures 0 <= H.Quotient(m, width) <= H.Quotient(d, width) <= H.Quotient(m, width) + 1
    ensures d < 0 ==> H.Quotient(m, width) == 0
  {
    H.QuotientIs(m, width, 0);
    H.QuotientIs(d, width, 0);
    if m >= 0 {
      QuotientOfPositive(m, width);
      QuotientOfPositive(d, width);
      hide H.Quotient;
      DivisionBounds(m, width);
      DivisionBounds(d, width);
      QuotientsClose(m / width, d / width, m, d, width);
    } else {
      hide H.Quotient;
    }
  }

  lemma QuotientsClose(a: int, b: int, m: int, d: int, width: int)
    requires width > 0 && m <= d < m + width
    requires a * width <= m < a * width + width && b * width <= d < b * width + width
    ensures a <= b <= a + 1
  {
    var x := b - a;
    assert x * width == b * width - a * width;
    if x <= -1 {
      AtLeastOnce(-x, width);
    } else if x >= 2 {
      AtLeastOnce(x - 1, width);
    }
  }

  /** The direct path counts the rows: bucket i takes the matching rows from the whole second of
      the start on, as long as the sample does not cut the answer. */
  lemma DirectCountsRows(rows: seq<Event>, answer: Answer, out: seq<H.Bucket>, q: Query, now: int, buckets: int,
                         split: Split, coll: Folding, i: nat, key: string)
    requires ValidQuery(q) && !UsesRollup(q, now) && forall e | e in rows :: StatusFits(e)
    requires var (from, to) := Range(q, now);
             var width := BucketWidth(q, now, buckets);
             && i < |out| && |out| * width <= Decimal.MAX_INT64
             && H.Filled(out, from, width, Mapped(answer, SlotOfGroup(q, now, width, split)))
             && Tabulates(answer, rows, Matches(q, now, coll), RowGroup(from, width, split), (g: Group) => true)
    ensures var from := Range(q, now).0;
            var width := BucketWidth(q, now, buckets);
            var start := from - from % SECOND + i * width;
            && out[i].total == Count(rows, Within(q, now, coll, start, start + width))
            && H.Get(out[i].parts, key) == Count(rows, WithinAs(q, now, coll, start, start + width, split, key))
  {
    hide H.Index;
    hide H.Filled;
    hide C.SqlMatch;
    hide C.StoredRow;
    hide BucketKey;
    hide Tabulates;
    hide BucketWidth;
    hide SlotOfGroup;
    hide Mapped;
    hide Range;
    hide UsesRollup;
    var from := Range(q, now).0;
    var width := BucketWidth(q, now, buckets);
    var start := from - from % SECOND + i * width;
    var sel, groupOf, slot := Matches(q, now, coll), RowGroup(from, width, split), SlotOfGroup(q, now, width, split);
    var whole := Within(q, now, coll, start, start + width);
    var part := WithinAs(q, now, coll, start, start + width, split, key);
    forall e | e in rows
      ensures whole(e) == (sel(e) && slot(groupOf(e)).0 == i)
      ensures part(e) == (sel(e) && slot(groupOf(e)).0 == i && slot(groupOf(e)).1 == key)
    {
      DirectRow(q, now, width, split, i, |out|, e);
    }
    AnswerCounts(out, from, width, answer, slot, rows, sel, groupOf, i, key, whole, part);
  }

  lemma DirectRow(q: Query, now: int, width: int, split: Split, i: nat, n: nat, e: Event)
    requires !UsesRollup(q, now) && StatusFits(e) && width > 0 && i < n && n * width <= Decimal.MAX_INT64
    ensures var from := Range(q, now).0;
            var slot := SlotOfGroup(q, now, width, split)(RowGroup(from, width, split)(e));
            var start := from - from % SECOND + i * width;
            (slot.0 == i <==> start <= e.time < start + width) && slot.1 == BucketKey(e, split)
  {
    hide H.Index;
    hide BucketKey;
    hide SplitKey;
    hide Range;
    var from := Range(q, now).0;
    SplitKeyIsBucketKey(e, split);
    BackToBucket(RowGroup(from, width, split)(e).0, from, width, n, i);
    FloorIs(e.time - (from - from % SECOND), width, i);
  }

  lemma FloorIs(d: int, width: int, i: int)
    requires width > 0
    ensures d / width == i <==> i * width <= d < i * width + width
  {
    DivisionBounds(d, width);
    if i * width <= d < i * width + width {
      DivisionUnique(d, width, i);
    }
  }

  /** The start of a bucket is indexed back to that bucket. */
  lemma BackToBucket(b: int, from: int, width: int, n: nat, i: nat)
    requires width > 0 && i < n && n * width <= Decimal.MAX_INT64
    ensures H.Index(from + b * width, from, width) == i <==> b == i
  {
    var d := b * width;
    H.IndexIsBucket(from + d, from, width, n, i);
    assert (i + 1) * width == i * width + width;
    assert (b - i) * width == d - i * width;
    if H.InBucket(from + d, from, width, i) {
      LessThanOnce(b - i, width);
    }
  }

  // ---- conservation ----------------------------------------------------------

  /** The totals of all buckets count the elements whose group has a bucket. */
  lemma AnswerConserved(out: seq<H.Bucket>, from: int, width: int, answer: Answer, slot: Group -> (int, string),
                        rows: seq<Event>,
                        sel: Event -> bool, groupOf: Event -> Group, counted: Event -> bool)
    requires H.Filled(out, from, width, Mapped(answer, slot))
    requires Tabulates(answer, rows, sel, groupOf, (g: Group) => true)
    requires forall e | e in rows :: counted(e) == (sel(e) && 0 <= slot(groupOf(e)).0 < |out|)
    ensures H.SumBuckets(out) == Count(rows, counted)
  {
    var inRange := Onto(slot, H.InRange(|out|));
    H.Conserved(out, from, width, Mapped(answer, slot));
    MappedTotal(answer, slot, H.InRange(|out|));
    TotalIsCount(answer, rows, sel, groupOf, inRange);
    CountSame(rows, Through(sel, groupOf, inRange), counted);
  }

  lemma BeforeFirst(d: int, width: int)
    requires width > 0 && d <= -width
    ensures H.Quotient(d, width) < 0
  {
    H.QuotientIs(d, width, 0);
    DivisionBounds(-d, width);
  }

  /** The database numbers buckets from the whole second of the start, so a time has one exactly
      when it is from there on and before the end of the last bucket counted from there. */
  lemma DirectInRange(t: int, from: int, width: int, n: nat)
    requires width > 0 && n * width <= Decimal.MAX_INT64
    ensures var lo := from - from % SECOND;
            0 <= H.Index(from + ((t - lo) / width) * width, from, width) < n <==> lo <= t < lo + n * width
  {
    var lo := from - from % SECOND;
    var b := (t - lo) / width;
    DivisionBounds(t - lo, width);
    if b >= 0 {
      SlotInRange(b, from, width, n);
      MultipleBefore(b, n, width, t - lo);
    } else if n > 0 {
      AtLeastOnce(n, width);
      AtLeastOnce(-b, width);
      BeforeFirst(H.Sub(from + b * width, from), width);
    }
  }

  lemma MultipleBefore(b: int, n: int, width: int, d: int)
    requires width > 0 && b * width <= d < b * width + width
    ensures b < n <==> d < n * width
  {
    if b < n {
      AtLeastOnce(n - b, width);
    } else {
      assert (b - n) * width >= 0;
    }
    assert (n - b) * width == n * width - b * width && (b - n) * width == b * width - n * width;
  }

  lemma SlotInRange(b: nat, from: int, width: int, n: nat)
    requires width > 0 && n * width <= Decimal.MAX_INT64
    ensures 0 <= H.Index(from + b * width, from, width) < n <==> b < n
  {
    hide H.Index;
    var d := b * width;
    assert d >= 0;
    H.InRangeIff(from + d, from, width, n);
    MultipleBefore(b, n, width, d);
  }

  lemma DirectTotal(rows: seq<Event>, answer: Answer, out: seq<H.Bucket>, q: Query, now: int, buckets: int,
                    split: Split, coll: Folding,
                    counted: Event -> bool)
    requires !UsesRollup(q, now)
    requires var from := Range(q, now).0;
             var width := BucketWidth(q, now, buckets);
             var lo := from - from % SECOND;
             && |out| * width <= Decimal.MAX_INT64
             && H.Filled(out, from, width, Mapped(answer, SlotOfGroup(q, now, width, split)))
             && Tabulates(answer, rows, Matches(q, now, coll), RowGroup(from, width, split), (g: Group) => true)
             && forall e :: counted(e) == (Matches(q, now, coll)(e) && lo <= e.time < lo + |out| * width)
    ensures H.SumBuckets(out) == Count(rows, counted)
  {
    hide H.Filled;
    hide H.SumBuckets;
    hide Tabulates;
    hide BucketWidth;
    hide Mapped;
    hide UsesRollup;
    hide SlotOfGroup;
    hide RowGroup;
    hide Range;
    hide Matches;
    var from := Range(q, now).0;
    var width := BucketWidth(q, now, buckets);
    var sel, groupOf, slot := Matches(q, now, coll), RowGroup(from, width, split), SlotOfGroup(q, now, width, split);
    forall e | e in rows
      ensures counted(e) == (sel(e) && 0 <= slot(groupOf(e)).0 < |out|)
    {
      DirectCounted(q, now, width, split, |out|, e);
    }
    AnswerConserved(out, from, width, answer, slot, rows, sel, groupOf, counted);
  }

  /** Conservation on the direct path: the totals count the matching rows from the whole second
      of the start to the end of the last bucket counted from there, and no matching row is lost
      exactly when all lie there; with explicit bounds, none is if the range ends before it. */
  lemma DirectConserves(rows: seq<Event>, answer: Answer, out: seq<H.Bucket>, q: Query, now: int, buckets: int,
                        split: Split, coll: Folding)
    requires ValidQuery(q) && !UsesRollup(q, now)
    requires var from := Range(q, now).0;
             var width := BucketWidth(q, now, buckets);
             && |out| * width <= Decimal.MAX_INT64
             && H.Filled(out, from, width, Mapped(answer, SlotOfGroup(q, now, width, split)))
             && Tabulates(answer, rows, Matches(q, now, coll), RowGroup(from, width, split), (g: Group) => true)
    ensures var (from, to) := Range(q, now);
            var lo := from - from % SECOND;
            var end := lo + |out| * BucketWidth(q, now, buckets);
            var total := H.SumBuckets(out);
            && total == Count(rows, Within(q, now, coll, lo, end))
            && (total == Count(rows, Matches(q, now, coll)) <==>
                  forall e | e in rows && Matches(q, now, coll)(e) :: lo <= e.time < end)
            && (Range(q, now) == C.Bounds(q, now) && to < end ==> total == Count(rows, Matches(q, now, coll)))
  {
    hide H.Filled;
    hide H.SumBuckets;
    hide Tabulates;
    hide BucketWidth;
    hide Mapped;
    hide UsesRollup;
    hide SlotOfGroup;
    hide RowGroup;
    MatchesBetween(q, now, coll);
    hide C.SqlMatch;
    hide C.StoredRow;
    hide Range;
    var from := Range(q, now).0;
    var lo := from - from % SECOND;
    var end := lo + |out| * BucketWidth(q, now, buckets);
    var counted := Within(q, now, coll, lo, end);
    DirectTotal(rows, answer, out, q, now, buckets, split, coll, counted);
    CountImplied(rows, counted, Matches(q, now, coll));
    hide Count;
  }

  lemma DirectSlot(q: Query, now: int, width: int, split: Split, e: Event)
    requires !UsesRollup(q, now) && width > 0
    ensures var from := Range(q, now).0;
            SlotOfGroup(q, now, width, split)(RowGroup(from, width, split)(e)).0 ==
            H.Index(from + ((e.time - (from - from % SECOND)) / width) * width, from, width)
  {
    hide H.Index;
    hide SplitKey;
  }

  lemma DirectCounted(q: Query, now: int, width: int, split: Split, n: nat, e: Event)
    requires !UsesRollup(q, now) && width > 0 && n * width <= Decimal.MAX_INT64
    ensures var from := Range(q, now).0;
            var lo := from - from % SECOND;
            0 <= SlotOfGroup(q, now, width, split)(RowGroup(from, width, split)(e)).0 < n <==>
              lo <= e.time < lo + n * width
  {
    hide H.Index;
    hide SlotOfGroup;
    hide RowGroup;
    hide UsesRollup;
    DirectSlot(q, now, width, split, e);
    DirectInRange(e.time, Range(q, now).0, width, n);
  }

  lemma MatchesBetween(q: Query, now: int, coll: Folding)
    ensures forall e | Matches(q, now, coll)(e) :: C.Bounds(q, now).0 <= e.time <= C.Bounds(q, now).1
  {}

  /** What the direct path drops and the memory store keeps: the rows of the last fraction of a
      second of the range that the start is past its whole second. */
  lemma DirectDropsEarlier(t: int, from: int, width: int, n: nat)
    requires width > 0 && n > 0 && n * width <= Decimal.MAX_INT64 && from <= t
    ensures var lo := from - from % SECOND;
            var direct := H.Index(from + ((t - lo) / width) * width, from, width);
            var kept := H.Index(t, from, width);
            0 <= kept < n && !(0 <= direct < n) <==> lo + n * width <= t < from + n * width
  {
    hide H.Index;
    DirectInRange(t, from, width, n);
    H.InRangeIff(t, from, width, n);
  }

  // ---- conservation in the rollup ----------------------------------------------

  /** The rows of a datacenter condition in a half-open stretch of time. */
  function InDatacenterWithin(q: Query, coll: Folding, start: int, end: int): Event -> bool {
    (e: Event) => InDatacenter(e.datacenter, q, coll) && start <= e.time < end
  }

  /** Where the rows counted from the rollup end: the minute of the end of the range is counted
      whole, unless it begins where the last bucket ends. */
  function RollupEnd(to: int, covered: int): int {
    if to == covered && to % MINUTE == 0 then to else MinuteOf(to) + MINUTE
  }

  lemma MinuteCounted(t: int, from: int, to: int, covered: int)
    requires to <= covered
    ensures MinuteOf(from) <= MinuteOf(t) <= to && MinuteOf(t) < covered
            <==> MinuteOf(from) <= t < RollupEnd(to, covered)
  {
    MinuteBounds(t);
    MinuteBounds(from);
    MinuteBounds(to);
    SameSide(t, MinuteOf(from));
    SameSide(t, MinuteOf(to) + MINUTE);
    if to % MINUTE == 0 {
      SameSide(t, to);
    }
    NextMinute(MinuteOf(t), to);
  }

  lemma NextMinute(m: int, to: int)
    requires m % MINUTE == 0
    ensures m <= to <==> m < MinuteOf(to) + MINUTE
  {
    MinuteBounds(to);
    assert m == (m / MINUTE) * MINUTE && MinuteOf(to) == (to / MINUTE) * MINUTE;
  }

  /** Conservation from the rollup, for any start: the totals count the rows of the datacenters
      from the minute of the start to the end of the minute of the end. */
  lemma RollupConserves(t: Table, r: Rollup, cutoff: int, listing: seq<(RollupKey, nat)>, answer: Answer,
                        out: seq<H.Bucket>,
                        q: Query, now: int, buckets: int, split: Split, coll: Folding)
    requires RollupHolds(t, r, cutoff) && IsListing(listing, r)
    requires Grouped(answer, listing, RollupCondition(q, now, coll), RollupGroup(split))
    requires ValidQuery(q) && UsesRollup(q, now)
    requires var (from, to) := Range(q, now);
             var width := BucketWidth(q, now, buckets);
             && cutoff <= MinuteOf(from)
             && |out| > 0 && |out| * width <= Decimal.MAX_INT64 && to <= from + |out| * width
             && H.Filled(out, from, width, Mapped(answer, SlotOfGroup(q, now, width, split)))
    ensures var (from, to) := Range(q, now);
            var end := RollupEnd(to, from + |out| * BucketWidth(q, now, buckets));
            H.SumBuckets(out) == Count(Rows(t), InDatacenterWithin(q, coll, MinuteOf(from), end))
  {
    hide H.Index;
    hide H.Filled;
    hide H.SumBuckets;
    hide RollupHolds;
    hide Rows;
    hide IsListing;
    hide Tabulates;
    hide BucketWidth;
    hide SlotOfGroup;
    hide Mapped;
    hide Grouped;
    hide Range;
    hide UsesRollup;
    hide InDatacenter;
    var (from, to) := Range(q, now);
    var width := BucketWidth(q, now, buckets);
    var cond, group, slot := RollupCondition(q, now, coll), RollupGroup(split), SlotOfGroup(q, now, width, split);
    RollupTabulates(t, r, cutoff, listing, cond);
    GroupedTabulates(answer, listing, Rows(t), EVERY_ROW, ROW_KEY, cond, group);
    var sel, groupOf := Onto(ROW_KEY, cond), Compose(ROW_KEY, group);
    var covered := from + |out| * width;
    var counted := InDatacenterWithin(q, coll, MinuteOf(from), RollupEnd(to, covered));
    forall e | e in Rows(t)
      ensures counted(e) == (sel(e) && 0 <= slot(groupOf(e)).0 < |out|)
    {
      RollupCounted(q, now, buckets, split, coll, |out|, e);
    }
    AnswerConserved(out, from, width, answer, slot, Rows(t), sel, groupOf, counted);
  }

  lemma RollupCounted(q: Query, now: int, buckets: int, split: Split, coll: Folding, n: nat, e: Event)
    requires UsesRollup(q, now)
    requires var (from, to) := Range(q, now);
             var width := BucketWidth(q, now, buckets);
             n > 0 && n * width <= Decimal.MAX_INT64 && to <= from + n * width
    ensures var (from, to) := Range(q, now);
            var width := BucketWidth(q, now, buckets);
            var k := KeyOf(e);
            RollupCondition(q, now, coll)(k) && 0 <= SlotOfGroup(q, now, width, split)(RollupGroup(split)(k)).0 < n <==>
            InDatacenterWithin(q, coll, MinuteOf(from), RollupEnd(to, from + n * width))(e)
  {
    hide InDatacenter;
    hide H.Index;
    hide SplitKey;
    hide RollupEnd;
    var (from, to) := Range(q, now);
    var width := BucketWidth(q, now, buckets);
    var covered := from + n * width;
    MinuteCounted(e.time, from, to, covered);
    MinuteBounds(from);
    if MinuteOf(from) <= MinuteOf(e.time) {
      WidthInMinutes(q, now, buckets);
      H.InRangeIff(MinuteOf(e.time), from, width, n);
    }
  }

  /** The whole milliseconds counted from the rollup are those of the range. */
  ghost predicate CountsRange(from: int, to: int, end: int) {
    forall t | t % MILLISECOND == 0 :: MinuteOf(from) <= t < end <==> from <= t <= to
  }

  lemma UpToLastMillisecond(t: int, to: int, end: int)
    requires t % MILLISECOND == 0 && end % MILLISECOND == 0 && end - MILLISECOND <= to < end
    ensures t < end <==> t <= to
  {
    LastMillisecond(t, end);
  }

  lemma WholeMinutesCounted(from: int, to: int, covered: int)
    requires from <= to <= covered && from % MINUTE == 0 && to % MINUTE >= MINUTE - MILLISECOND
    ensures CountsRange(from, to, RollupEnd(to, covered))
  {
    var end := MinuteOf(to) + MINUTE;
    WholeMinute(to);
    AlignedStart(from);
    assert end == RollupEnd(to, covered) && end - MILLISECOND <= to < end && end % MILLISECOND == 0;
    hide RollupEnd;
    hide MinuteOf;
    forall t | t % MILLISECOND == 0
      ensures MinuteOf(from) <= t < end <==> from <= t <= to
    {
      UpToLastMillisecond(t, to, end);
    }
  }

  lemma OtherRangesNotCounted(from: int, to: int, covered: int) returns (t: int)
    requires from <= to <= covered && !(from % MINUTE == 0 && to % MINUTE >= MINUTE - MILLISECOND)
    ensures t % MILLISECOND == 0 && !(MinuteOf(from) <= t < RollupEnd(to, covered) <==> from <= t <= to)
  {
    MinuteBounds(from);
    MinuteBounds(to);
    WholeMinute(from);
    WholeMinute(to);
    if from % MINUTE != 0 {
      t := MinuteOf(from);
    } else if to % MINUTE == 0 && to == covered {
      t := to;
    } else {
      t := MinuteOf(to) + MINUTE - MILLISECOND;
      assert from <= MinuteOf(to) by {
        SameSide(to, from);
      }
    }
  }

  /** At whole milliseconds the rollup counts exactly the range when the range begins a minute and
      ends with one. */
  lemma RollupCountsRangeExactly(from: int, to: int, covered: int)
    requires from <= to <= covered
    ensures CountsRange(from, to, RollupEnd(to, covered)) <==> from % MINUTE == 0 && to % MINUTE >= MINUTE - MILLISECOND
  {
    if from % MINUTE == 0 && to % MINUTE >= MINUTE - MILLISECOND {
      WholeMinutesCounted(from, to, covered);
    } else {
      var t := OtherRangesNotCounted(from, to, covered);
    }
  }

  lemma WholeMinute(t: int)
    ensures MinuteOf(t) % MILLISECOND == 0 && (MinuteOf(t) + MINUTE) % MILLISECOND == 0
    ensures (MinuteOf(t) + MINUTE - MILLISECOND) % MILLISECOND == 0
    ensures t % MINUTE == 0 ==> t % MILLISECOND == 0
  {
    var k := t / MINUTE;
    var n := k * 60000;
    assert MinuteOf(t) == n * MILLISECOND;
    hide MinuteOf;
    MultipleHasNoRemainder(n, MILLISECOND);
    MultipleHasNoRemainder(n + 60000, MILLISECOND);
    MultipleHasNoRemainder(n + 59999, MILLISECOND);
    assert t % MINUTE == 0 ==> t == n * MILLISECOND;
  }

  lemma LastMillisecond(t: int, end: int)
    requires t % MILLISECOND == 0 && end % MILLISECOND == 0
    ensures t < end <==> t <= end - MILLISECOND
  {}
}
