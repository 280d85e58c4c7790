/** The backend without a database (storage/memory/storage.go): its circular buffer behaves as an
    append log cut to its last entries. */
module MemoryStore {
  import opened Wrappers
  import opened Timeline
  import opened Queries
  import opened Paging
  import opened Arithmetic
  import opened Counting
  import H = Histogram

  const DEFAULT_SIZE := 10000
  const DEFAULT_LIMIT := 100

  datatype Instance = Instance(datacenter: string, nodeName: string, serviceID: string, registration: string,
                               firstSeen: int, lastSeen: int)
  {
    function Key(): (string, string, string) { (datacenter, nodeName, serviceID) }
  }

  // ---- the log behind the ring -----------------------------------------------

  /** IDs are consecutive from 1. */
  ghost predicate Stamped(log: seq<Event>) {
    forall k | 0 <= k < |log| :: log[k].id == k + 1
  }

  function Stamp(batch: seq<Event>, base: nat): seq<Event> {
    seq(|batch|, i requires 0 <= i < |batch| => batch[i].(id := base + i + 1))
  }

  function Min(a: int, b: int): int { if a < b then a else b }

  /** The last n entries of the log, or all of them. */
  function Latest(log: seq<Event>, n: nat): seq<Event> {
    log[|log| - Min(n, |log|)..]
  }

  function Select(s: seq<Event>, q: Query, lower: Folding): seq<Event> {
    if s == [] then []
    else (if Match(s[0], q, lower) then [s[0]] else []) + Select(s[1..], q, lower)
  }

  /** The answer to a query before it is cut into pages. */
  function Matching(log: seq<Event>, n: nat, q: Query, lower: Folding): seq<Event> {
    Sort(Select(Latest(log, n), q, lower))
  }

  lemma {:induction false} SelectSelects(s: seq<Event>, q: Query, lower: Folding)
    ensures forall e :: e in Select(s, q, lower) <==> e in s && Match(e, q, lower)
  {
    hide Match;
    if s != [] {
      SelectSelects(s[1..], q, lower);
      assert s == [s[0]] + s[1..];
    }
  }

  ghost predicate IdsIncrease(s: seq<Event>) {
    forall i, j | 0 <= i < j < |s| :: s[i].id < s[j].id
  }

  lemma IdsCons(e: Event, s: seq<Event>)
    requires IdsIncrease(s) && forall x | x in s :: e.id < x.id
    ensures IdsIncrease([e] + s)
  {}

  lemma {:induction false} SelectDistinct(s: seq<Event>, q: Query, lower: Folding)
    requires IdsIncrease(s)
    ensures IdsIncrease(Select(s, q, lower))
  {
    hide Match;
    if s != [] {
      SelectDistinct(s[1..], q, lower);
      SelectSelects(s[1..], q, lower);
      assert forall e | e in s[1..] :: s[0].id < e.id;
      IdsCons(s[0], Select(s[1..], q, lower));
      assert [] + Select(s[1..], q, lower) == Select(s[1..], q, lower);
    }
  }

  lemma LatestSelected(log: seq<Event>, n: nat, q: Query, lower: Folding)
    requires Stamped(log)
    ensures DistinctEvents(Select(Latest(log, n), q, lower))
  {
    hide Match;
    hide Select;
    var s := Latest(log, n);
    assert forall i | 0 <= i < |s| :: s[i] == log[|log| - |s| + i];
    SelectDistinct(s, q, lower);
  }

  /** `matching` is right: newest first, and exactly the matching entries among the last n. */
  lemma MatchingMatches(log: seq<Event>, n: nat, q: Query, lower: Folding)
    requires Stamped(log)
    ensures NewestFirst(Matching(log, n, q, lower))
    ensures forall e :: e in Matching(log, n, q, lower) <==> e in Latest(log, n) && Match(e, q, lower)
  {
    hide Match;
    LatestSelected(log, n, q, lower);
    SelectSelects(Latest(log, n), q, lower);
    SortSorts(Select(Latest(log, n), q, lower));
  }

  // ---- the ring --------------------------------------------------------------

  function Position(k: nat, n: nat): (p: nat)
    requires n > 0
    ensures p < n
  {
    k % n
  }

  lemma PositionForward(k: nat, n: nat)
    requires n > 0
    ensures Position(k + 1, n) == (Position(k, n) + 1) % n
  {
    var q, r := k / n, k % n;
    NextMultiple(q, n);
    if r + 1 < n {
      RemainderIs(k + 1, n, q, r + 1);
      RemainderIs(r + 1, n, 0, r + 1);
    } else {
      RemainderIs(k + 1, n, q + 1, 0);
      RemainderIs(r + 1, n, 1, 0);
    }
  }

  lemma PositionBack(k: nat, n: nat, j: nat)
    requires n > 0 && j < n && j < k
    ensures (Position(k, n) - 1 - j + n) % n == Position(k - 1 - j, n)
  {
    var q, r := k / n, k % n;
    NextMultiple(q, n);
    if r - 1 - j >= 0 {
      RemainderIs(r - 1 - j + n, n, 1, r - 1 - j);
      RemainderIs(k - 1 - j, n, q, r - 1 - j);
    } else {
      RemainderIs(r - 1 - j + n, n, 0, r - 1 - j + n);
      RemainderIs(k - 1 - j, n, q - 1, r - 1 - j + n);
    }
  }

  lemma PositionsDiffer(a: nat, b: nat, n: nat)
    requires n > 0 && a < b < a + n
    ensures Position(a, n) != Position(b, n)
  {
    if a % n == b % n {
      var x, y := a / n, b / n;
      assert (y - x) * n == y * n - x * n;
      LessThanOnce(y - x, n);
    }
  }

  /** A buffer that holds the end of the log at positions modulo its length. */
  ghost predicate Ring(log: seq<Event>, buffer: seq<Event>, next: nat, size: nat) {
    && buffer != []
    && size == Min(|buffer|, |log|)
    && next == Position(|log|, |buffer|)
    && forall k: nat | |log| - size <= k < |log| :: buffer[Position(k, |buffer|)] == log[k]
  }

  lemma RingBounds(log: seq<Event>, buffer: seq<Event>, next: nat, size: nat)
    requires Ring(log, buffer, next, size)
    ensures next < |buffer| && size == Min(|buffer|, |log|)
  {}

  lemma RingPush(log: seq<Event>, buffer: seq<Event>, next: nat, size: nat, e: Event)
    requires Ring(log, buffer, next, size)
    ensures Ring(log + [e], buffer[next := e], (next + 1) % |buffer|, if size < |buffer| then size + 1 else size)
  {
    hide Position;
    var n := |buffer|;
    var kept := if size < n then size + 1 else size;
    PositionForward(|log|, n);
    forall k: nat | |log| + 1 - kept <= k < |log| + 1
      ensures buffer[next := e][Position(k, n)] == (log + [e])[k]
    {
      if k < |log| {
        PositionsDiffer(k, |log|, n);
      }
    }
  }

  /** The position the reading loop computes is where the j-th newest entry is. */
  lemma ReadPosition(log: seq<Event>, buffer: seq<Event>, next: nat, size: nat, j: nat)
    requires Ring(log, buffer, next, size) && j < size
    ensures var i := (next - 1 - j + |buffer|) % |buffer|; 0 <= i < |buffer| && buffer[i] == log[|log| - 1 - j]
  {
    hide Position;
    PositionBack(|log|, |buffer|, j);
  }

  // ---- histograms ------------------------------------------------------------

  datatype HistogramResult = Rejected | Crashed | Counted(buckets: seq<H.Bucket>)

  /** One call of `add` per event. */
  function Adds(events: seq<Event>, from: int, width: int, split: Split): seq<H.Slot>
    requires width > 0
  {
    seq(|events|, i requires 0 <= i < |events| => (SlotOf(events[i], from, width, split), 1))
  }

  function SlotOf(e: Event, from: int, width: int, split: Split): (int, string)
    requires width > 0
  {
    (H.Index(e.time, from, width), BucketKey(e, split))
  }

  /** The events whose slot satisfies a condition. */
  function Where(p: H.Condition, from: int, width: int, split: Split): Event -> bool
    requires width > 0
  {
    (e: Event) => p(SlotOf(e, from, width, split))
  }

  lemma {:induction false} AddsCount(events: seq<Event>, from: int, width: int, split: Split, p: H.Condition)
    requires width > 0
    ensures Total(Adds(events, from, width, split), p) == Count(events, Where(p, from, width, split))
  {
    if events != [] {
      AddsCount(events[..|events| - 1], from, width, split, p);
      var adds := Adds(events, from, width, split);
      assert adds[..|adds| - 1] == Adds(events[..|events| - 1], from, width, split);
    }
  }

  /** The events whose time falls into a bucket. */
  function InBucket(from: int, width: int, i: int): Event -> bool {
    (e: Event) => H.InBucket(e.time, from, width, i)
  }

  function InBucketAs(from: int, width: int, i: int, split: Split, key: string): Event -> bool {
    (e: Event) => H.InBucket(e.time, from, width, i) && BucketKey(e, split) == key
  }

  function EffectiveFrom(q: Query, now: int): int {
    if q.from == 0 then EffectiveTo(q, now) - HOUR else q.from
  }

  function EffectiveTo(q: Query, now: int): int {
    if q.to == 0 then now else q.to
  }

  function Span(q: Query, now: int): int {
    H.Sub(EffectiveTo(q, now), EffectiveFrom(q, now))
  }

  /** Every bucket counts the events whose time falls into it, in all and by key. */
  lemma BucketsCount(out: seq<H.Bucket>, events: seq<Event>, from: int, width: int, split: Split, i: nat, key: string)
    requires width > 0 && i < |out| && |out| * width <= H.Decimal.MAX_INT64
    requires H.Filled(out, from, width, Adds(events, from, width, split))
    ensures out[i].total == Count(events, InBucket(from, width, i))
    ensures H.Get(out[i].parts, key) == Count(events, InBucketAs(from, width, i, split, key))
  {
    hide H.Index;
    hide H.InBucket;
    hide BucketKey;
    AddsCount(events, from, width, split, H.AtIndex(i));
    AddsCount(events, from, width, split, H.AtCell(i, key));
    forall e: Event
      ensures H.Index(e.time, from, width) == i <==> H.InBucket(e.time, from, width, i)
    {
      H.IndexIsBucket(e.time, from, width, |out|, i);
    }
    CountSame(events, Where(H.AtIndex(i), from, width, split), InBucket(from, width, i));
    CountSame(events, Where(H.AtCell(i, key), from, width, split), InBucketAs(from, width, i, split, key));
  }

  function NotLostAtEnd(to: int, lost: bool): Event -> bool {
    (e: Event) => !(lost && e.time == to)
  }

  /** Conservation: over explicit bounds the totals count every matching event, except one at
      exactly `to`, which is lost when the width divides the span. */
  lemma HistogramConserves(out: seq<H.Bucket>, events: seq<Event>, q: Query, width: int, split: Split)
    requires width > 0 && 0 < q.to - q.from && q.to - q.from + width - 1 <= H.Decimal.MAX_INT64
    requires |out| == H.BucketCount(q.to - q.from, width)
    requires H.Filled(out, q.from, width, Adds(events, q.from, width, split))
    requires forall e | e in events :: q.from <= e.time <= q.to
    ensures H.SumBuckets(out) == Count(events, NotLostAtEnd(q.to, (q.to - q.from) % width == 0))
  {
    hide H.Index;
    hide BucketKey;
    hide H.Filled;
    hide H.BucketCount;
    hide H.SumBuckets;
    hide Adds;
    hide Count;
    var n, span := |out|, q.to - q.from;
    H.BucketsCoverSpan(span, width);
    H.CoverIsTight(span, width, n);
    H.Conserved(out, q.from, width, Adds(events, q.from, width, split));
    AddsCount(events, q.from, width, split, H.InRange(n));
    var lost := span % width == 0;
    var covered := n * width;
    assert span <= covered && (span == covered <==> lost);
    forall e | e in events
      ensures Where(H.InRange(n), q.from, width, split)(e) == NotLostAtEnd(q.to, lost)(e)
    {
      H.InRangeIff(e.time, q.from, width, n);
      assert e.time < q.from + covered <==> !(lost && e.time == q.to);
      assert H.InRange(n)(SlotOf(e, q.from, width, split)) <==> 0 <= H.Index(e.time, q.from, width) < n;
      assert Where(H.InRange(n), q.from, width, split)(e) == H.InRange(n)(SlotOf(e, q.from, width, split));
      assert NotLostAtEnd(q.to, lost)(e) == !(lost && e.time == q.to);
    }
    CountSame(events, Where(H.InRange(n), q.from, width, split), NotLostAtEnd(q.to, lost));
  }

  /** What `Histogram` answers to a valid query over a log. */
  ghost predicate HistogramOf(r: HistogramResult, log: seq<Event>, n: nat, q: Query, buckets: int, split: Split,
                              now: int, lower: Folding) {
    if Span(q, now) <= 0 then r == Counted([])
    else
      var from := EffectiveFrom(q, now);
      var width := H.Width(Span(q, now), if buckets <= 0 then 60 else buckets);
      var count := H.BucketCount(Span(q, now), width);
      if count < 0 then r == Crashed
      else
        && r.Counted? && |r.buckets| == count
        && H.Filled(r.buckets, from, width, Adds(Matching(log, n, q, lower), from, width, split))
  }

  function TimeWithin(from: int, to: int): Event -> bool {
    (e: Event) => from < e.time < to
  }

  /** Filled buckets count together what lies within them. */
  lemma FilledCovers(out: seq<H.Bucket>, all: seq<Event>, from: int, width: int, split: Split)
    requires out != [] && 0 < width <= H.Decimal.MAX_INT64 && |out| * width <= H.Decimal.MAX_INT64
    requires H.Filled(out, from, width, Adds(all, from, width, split))
    ensures H.SumBuckets(out) == Count(all, TimeWithin(from - width, from + |out| * width))
  {
    hide H.Filled;
    hide H.SumBuckets;
    hide H.Index;
    hide Adds;
    hide Count;
    hide BucketKey;
    var n := |out|;
    H.Conserved(out, from, width, Adds(all, from, width, split));
    AddsCount(all, from, width, split, H.InRange(n));
    var end := from + n * width;
    forall e: Event
      ensures Where(H.InRange(n), from, width, split)(e) == TimeWithin(from - width, end)(e)
    {
      H.InRangeExactly(e.time, from, width, n);
      assert Where(H.InRange(n), from, width, split)(e) == H.InRange(n)(SlotOf(e, from, width, split));
    }
    CountSame(all, Where(H.InRange(n), from, width, split), TimeWithin(from - width, end));
  }

  /** Where the buckets of an answer are, and how many. */
  lemma BucketsPlaced(r: HistogramResult, log: seq<Event>, n: nat, q: Query, buckets: int, split: Split, now: int,
                      lower: Folding) returns (width: int)
    requires HistogramOf(r, log, n, q, buckets, split, now, lower)
    requires var to := if q.to == 0 then now else q.to;
             var from := if q.from == 0 then to - HOUR else q.from;
             from < to && 2 * (to - from) <= H.Decimal.MAX_INT64 && 2 * buckets <= H.Decimal.MAX_INT64
    ensures var to := if q.to == 0 then now else q.to;
            var from := if q.from == 0 then to - HOUR else q.from;
            var asked := if buckets <= 0 then 60 else buckets;
            && r.Counted? && 0 < width <= H.Decimal.MAX_INT64 && width % SECOND == 0
            && r.buckets != [] && (|r.buckets| - 1) * width < to - from <= |r.buckets| * width <= H.Decimal.MAX_INT64
            && (asked * SECOND <= to - from && asked <= SECOND ==> asked <= |r.buckets| <= 2 * asked)
            && H.Filled(r.buckets, from, width, Adds(Matching(log, n, q, lower), from, width, split))
  {
    hide Matching;
    hide Adds;
    hide H.Filled;
    var to := if q.to == 0 then now else q.to;
    var from := if q.from == 0 then to - HOUR else q.from;
    var asked := if buckets <= 0 then 60 else buckets;
    var span := to - from;
    assert Span(q, now) == span && EffectiveFrom(q, now) == from;
    width := H.Width(span, asked);
    H.WidthFits(span, asked);
    if asked * SECOND <= span && asked <= SECOND {
      H.BucketsAsked(span, asked);
    }
    H.BucketsCoverSpan(span, width);
    hide H.Width;
    hide H.BucketCount;
    NextMultiple(|r.buckets|, width);
  }

  /** The buckets of an answer cover the range asked for, an open end being now and an open start an
      hour before the end: they are of one width and follow each other from the start on, and the
      end is in or at the end of the last. There are as many as asked for, sixty if none are, or up
      to twice as many, if the range has that many seconds. Each counts the matching events of its
      stretch, and together they count those from less than a width before the start to the end of
      the last bucket. */
  lemma HistogramCovers(r: HistogramResult, log: seq<Event>, n: nat, q: Query, buckets: int, split: Split, now: int,
                        lower: Folding) returns (width: int)
    requires HistogramOf(r, log, n, q, buckets, split, now, lower)
    requires var to := if q.to == 0 then now else q.to;
             var from := if q.from == 0 then to - HOUR else q.from;
             from < to && 2 * (to - from) <= H.Decimal.MAX_INT64 && 2 * buckets <= H.Decimal.MAX_INT64
    ensures var to := if q.to == 0 then now else q.to;
            var from := if q.from == 0 then to - HOUR else q.from;
            var asked := if buckets <= 0 then 60 else buckets;
            var all := Matching(log, n, q, lower);
            && r.Counted? && width > 0 && width % SECOND == 0
            && r.buckets != [] && (|r.buckets| - 1) * width < to - from <= |r.buckets| * width
            && (asked * SECOND <= to - from && asked <= SECOND ==> asked <= |r.buckets| <= 2 * asked)
            && H.SumBuckets(r.buckets) == Count(all, TimeWithin(from - width, from + |r.buckets| * width))
            && forall i | 0 <= i < |r.buckets| ::
                 && r.buckets[i].start == from + i * width
                 && r.buckets[i].total == Count(all, InBucket(from, width, i))
                 && forall key :: H.Get(r.buckets[i].parts, key) == Count(all, InBucketAs(from, width, i, split, key))
  {
    hide Matching;
    hide Adds;
    hide HistogramOf;
    hide H.SumBuckets;
    var to := if q.to == 0 then now else q.to;
    var from := if q.from == 0 then to - HOUR else q.from;
    var all := Matching(log, n, q, lower);
    width := BucketsPlaced(r, log, n, q, buckets, split, now, lower);
    FilledCovers(r.buckets, all, from, width, split);
    forall i: nat, key | i < |r.buckets|
      ensures r.buckets[i].total == Count(all, InBucket(from, width, i))
      ensures H.Get(r.buckets[i].parts, key) == Count(all, InBucketAs(from, width, i, split, key))
    {
      BucketsCount(r.buckets, all, from, width, split, i, key);
    }
    forall i | 0 <= i < |r.buckets|
      ensures r.buckets[i].total == Count(all, InBucket(from, width, i))
      ensures forall key :: H.Get(r.buckets[i].parts, key) == Count(all, InBucketAs(from, width, i, split, key))
    {
      BucketsCount(r.buckets, all, from, width, split, i, "");
    }
  }

  /** A range that does not go forward has no buckets; one too long for a duration crashes, if at least
      two buckets are made. */
  lemma OtherRanges(r: HistogramResult, log: seq<Event>, n: nat, q: Query, buckets: int, split: Split, now: int,
                    lower: Folding)
    requires HistogramOf(r, log, n, q, buckets, split, now, lower)
    requires buckets != 1 && buckets <= H.Decimal.MAX_INT64
    ensures var to := if q.to == 0 then now else q.to;
            var from := if q.from == 0 then to - HOUR else q.from;
            && (to <= from ==> r == Counted([]))
            && (to - from >= H.Decimal.MAX_INT64 ==> r == Crashed)
  {
    hide Matching;
    hide Adds;
    hide H.Filled;
    hide H.BucketCount;
    hide H.Width;
    var asked := if buckets <= 0 then 60 else buckets;
    H.WideSpansCrash(H.Decimal.MAX_INT64, asked, H.Width(H.Decimal.MAX_INT64, asked));
  }

  lemma MatchedInRange(e: Event, q: Query, lower: Folding)
    requires Match(e, q, lower) && q.from != 0 && q.to != 0
    ensures q.from <= e.time <= q.to
  {}

  /** Over explicit bounds an answer counts every matching event, except one at exactly the end when
      the last bucket ends there. */
  lemma ExplicitRangeCounted(r: HistogramResult, log: seq<Event>, n: nat, q: Query, buckets: int, split: Split,
                             now: int, lower: Folding) returns (width: int)
    requires Stamped(log) && HistogramOf(r, log, n, q, buckets, split, now, lower)
    requires q.from != 0 && q.to != 0 && q.from < q.to
    requires 2 * (q.to - q.from) <= H.Decimal.MAX_INT64 && 2 * buckets <= H.Decimal.MAX_INT64
    ensures r.Counted? && forall i | 0 <= i < |r.buckets| :: r.buckets[i].start == q.from + i * width
    ensures H.SumBuckets(r.buckets)
            == Count(Matching(log, n, q, lower), NotLostAtEnd(q.to, q.to == q.from + |r.buckets| * width))
  {
    hide Matching;
    hide HistogramOf;
    hide H.SumBuckets;
    var all := Matching(log, n, q, lower);
    width := HistogramCovers(r, log, n, q, buckets, split, now, lower);
    MatchingMatches(log, n, q, lower);
    var end := q.from + |r.buckets| * width;
    hide Match;
    forall e | e in all
      ensures TimeWithin(q.from - width, end)(e) == NotLostAtEnd(q.to, q.to == end)(e)
    {
      MatchedInRange(e, q, lower);
    }
    CountSame(all, TimeWithin(q.from - width, end), NotLostAtEnd(q.to, q.to == end));
  }

  // ---- the store -------------------------------------------------------------

  function Upsert(instances: map<(string, string, string), Instance>, i: Instance)
    : map<(string, string, string), Instance> {
    instances[i.Key() := if i.Key() in instances then i.(firstSeen := instances[i.Key()].firstSeen) else i]
  }

  function UpsertAll(instances: map<(string, string, string), Instance>, more: seq<Instance>)
    : map<(string, string, string), Instance> {
    if more == [] then instances else Upsert(UpsertAll(instances, more[..|more| - 1]), more[|more| - 1])
  }

  /** Whatever is upserted, an instance keeps the time it was first seen. */
  lemma {:induction false} FirstSeenKept(instances: map<(string, string, string), Instance>, more: seq<Instance>,
                                         k: (string, string, string))
    requires k in instances
    ensures k in UpsertAll(instances, more) && UpsertAll(instances, more)[k].firstSeen == instances[k].firstSeen
  {
    if more != [] {
      FirstSeenKept(instances, more[..|more| - 1], k);
    }
  }

  /** An instance is a service on a node of a datacenter. */
  predicate IsAbout(i: Instance, k: (string, string, string)) {
    (i.datacenter, i.nodeName, i.serviceID) == k
  }

  /** The record at a position is the last one of an instance. */
  predicate LastRecord(more: seq<Instance>, i: int, k: (string, string, string)) {
    0 <= i < |more| && IsAbout(more[i], k) && forall j | i < j < |more| :: !IsAbout(more[j], k)
  }

  predicate FirstRecord(more: seq<Instance>, i: int, k: (string, string, string)) {
    0 <= i < |more| && IsAbout(more[i], k) && forall j | 0 <= j < i :: !IsAbout(more[j], k)
  }

  /** An instance that no record is about stays as it was. */
  lemma {:induction false} UpsertLeaves(instances: map<(string, string, string), Instance>, more: seq<Instance>,
                                        k: (string, string, string))
    requires forall i | 0 <= i < |more| :: !IsAbout(more[i], k)
    ensures k in UpsertAll(instances, more) <==> k in instances
    ensures k in instances ==> UpsertAll(instances, more)[k] == instances[k]
  {
    if more != [] {
      UpsertLeaves(instances, more[..|more| - 1], k);
    }
  }

  /** An instance that some record is about is as the last such record says, but was first seen when
      it was, or if it is new when the first such record says. */
  lemma {:induction false} UpsertTakesLast(instances: map<(string, string, string), Instance>, more: seq<Instance>,
                                           first: nat, last: nat, k: (string, string, string))
    requires FirstRecord(more, first, k) && LastRecord(more, last, k)
    ensures k in UpsertAll(instances, more)
    ensures UpsertAll(instances, more)[k] ==
            more[last].(firstSeen := if k in instances then instances[k].firstSeen else more[first].firstSeen)
  {
    var n := |more| - 1;
    var init := more[..n];
    if last < n {
      assert FirstRecord(init, first, k) && LastRecord(init, last, k);
      UpsertTakesLast(instances, init, first, last, k);
    } else if first == n {
      UpsertLeaves(instances, init, k);
    } else {
      var before := LastBefore(init, first, k);
      assert FirstRecord(init, first, k);
      UpsertTakesLast(instances, init, first, before, k);
    }
  }

  lemma {:induction false} LastBefore(more: seq<Instance>, i: nat, k: (string, string, string)) returns (last: nat)
    requires i < |more| && IsAbout(more[i], k)
    ensures LastRecord(more, last, k)
  {
    if IsAbout(more[|more| - 1], k) {
      last := |more| - 1;
    } else {
      last := LastBefore(more[..|more| - 1], i, k);
    }
  }

  function Reversed(s: seq<Event>): seq<Event> {
    seq(|s|, i requires 0 <= i < |s| => s[|s| - 1 - i])
  }

  method Reverse(s: seq<Event>) returns (all: seq<Event>)
    ensures all == Reversed(s)
  {
    all := s;
    var i, j := 0, |all| - 1;
    while i < j
      invariant 0 <= i <= |s| && j == |s| - 1 - i && |all| == |s|
      invariant i <= j + 1
      invariant forall k | i <= k <= j :: all[k] == s[k]
      invariant forall k | 0 <= k < i || j < k < |s| :: all[k] == s[|s| - 1 - k]
    {
      all := all[i := all[j]][j := all[i]];
      i, j := i + 1, j - 1;
    }
  }

  /** What the reading loop has found after j steps back from the newest entry. */
  function Found(log: seq<Event>, j: nat, q: Query, lower: Folding): seq<Event>
    requires j <= |log|
  {
    Reversed(Select(log[|log| - j..], q, lower))
  }

  lemma FoundNothing(log: seq<Event>, q: Query, lower: Folding)
    ensures Found(log, 0, q, lower) == []
  {}

  lemma FoundStep(log: seq<Event>, j: nat, q: Query, lower: Folding)
    requires j < |log|
    ensures var e := log[|log| - 1 - j];
            Found(log, j + 1, q, lower) == Found(log, j, q, lower) + if Match(e, q, lower) then [e] else []
  {
    hide Match;
    assert log[|log| - (j + 1)..][1..] == log[|log| - j..];
  }

  lemma ReversedSorts(s: seq<Event>)
    requires DistinctEvents(s)
    ensures Sort(Reversed(s)) == Sort(s)
  {
    var r := Reversed(s);
    forall i, j | 0 <= i < j < |r|
      ensures Newer(r[i], r[j]) || Newer(r[j], r[i])
    {
      assert r[i] == s[|s| - 1 - i] && r[j] == s[|s| - 1 - j];
    }
    assert forall i | 0 <= i < |s| :: s[i] == r[|s| - 1 - i];
    SortSorts(s);
    SortSorts(r);
    SortedUnique(Sort(r), Sort(s));
  }

  lemma SortedMatching(log: seq<Event>, n: nat, q: Query, lower: Folding)
    requires Stamped(log)
    ensures Sort(Found(log, Min(n, |log|), q, lower)) == Matching(log, n, q, lower)
  {
    hide Match;
    LatestSelected(log, n, q, lower);
    ReversedSorts(Select(Latest(log, n), q, lower));
  }

  /** The query of a replay after a time. */
  function ReplayQuery(dc: string, after: int): Query {
    Query(dc, after + MILLISECOND, 0, [], "", START, 0)
  }

  /** The stored events of a datacenter strictly after a time, which a replay is to give. */
  ghost predicate Wanted(e: Event, log: seq<Event>, n: nat, dc: string, after: int) {
    e in Latest(log, n) && (dc != "" ==> e.datacenter == dc) && after < e.time
  }

  /** Nothing wanted is lost exactly when nothing wanted lies within the first millisecond after
      the time; a replay from one millisecond before the zero time is open and loses nothing. */
  lemma ReplayLoses(log: seq<Event>, n: nat, dc: string, after: int, lower: Folding)
    requires Stamped(log)
    ensures var all := Matching(log, n, ReplayQuery(dc, after), lower);
            && (after + MILLISECOND != 0 ==>
                  forall e :: e in all <==> Wanted(e, log, n, dc, after) && after + MILLISECOND <= e.time)
            && ((forall e | Wanted(e, log, n, dc, after) :: e in all) <==>
                  after + MILLISECOND == 0 || forall e | Wanted(e, log, n, dc, after) :: after + MILLISECOND <= e.time)
  {
    var q := ReplayQuery(dc, after);
    MatchingMatches(log, n, q, lower);
    FoldExact(dc);
    forall e: Event
      ensures Match(e, q, lower) <==>
                (dc != "" ==> e.datacenter == dc) && (after + MILLISECOND != 0 ==> after + MILLISECOND <= e.time)
    {
      FoldExact(e.datacenter);
    }
    hide Match;
    hide Matching;
  }

  /** Between whole milliseconds nothing is lost. */
  lemma ReplayComplete(log: seq<Event>, n: nat, dc: string, after: int, lower: Folding)
    requires Stamped(log) && after % MILLISECOND == 0 && forall e | e in log :: e.time % MILLISECOND == 0
    ensures forall e | Wanted(e, log, n, dc, after) :: e in Matching(log, n, ReplayQuery(dc, after), lower)
  {
    hide Matching;
    ReplayLoses(log, n, dc, after, lower);
    forall e | Wanted(e, log, n, dc, after)
      ensures after + MILLISECOND <= e.time
    {
      assert e in log;
    }
  }

  class Storage {
    const lower: Folding
    const events: array<Event>
    var next: nat
    var size: nat
    var nextID: int
    var instances: map<(string, string, string), Instance>
    ghost var log: seq<Event>

    ghost predicate Valid()
      reads this, events
    {
      Ring(log, events[..], next, size) && Stamped(log) && nextID == |log|
    }

    constructor (maxSize: int, lower: Folding, blank: Event)
      ensures Valid() && log == [] && instances == map[] && this.lower == lower && fresh(events)
      ensures events.Length == if maxSize <= 0 then DEFAULT_SIZE else maxSize
    {
      this.lower := lower;
      events := new Event[if maxSize <= 0 then DEFAULT_SIZE else maxSize](_ => blank);
      next, size, nextID := 0, 0, 0;
      instances := map[];
      log := [];
    }

    /** Appends to the log, whatever the ring has to forget. */
    method StoreEvents(batch: seq<Event>)
      requires Valid()
      modifies this`next, this`size, this`nextID, this`log, events
      ensures Valid() && log == old(log) + Stamp(batch, |old(log)|)
    {
      hide Ring;
      for k := 0 to |batch|
        invariant Valid() && log == old(log) + Stamp(batch, |old(log)|)[..k]
      {
        nextID := nextID + 1;
        var e := batch[k].(id := nextID);
        RingBounds(log, events[..], next, size);
        RingPush(log, events[..], next, size, e);
        ghost var pushed := events[..][next := e];
        events[next] := e;
        assert events[..] == pushed;
        next := (next + 1) % events.Length;
        if size < events.Length {
          size := size + 1;
        }
        log := log + [e];
      }
    }

    method UpsertInstances(more: seq<Instance>)
      modifies this`instances
      ensures instances == UpsertAll(old(instances), more)
    {
      for k := 0 to |more|
        invariant instances == UpsertAll(old(instances), more[..k])
      {
        var i := more[k];
        assert more[..k + 1][..k] == more[..k];
        if i.Key() in instances {
          i := i.(firstSeen := instances[i.Key()].firstSeen);
        }
        instances := instances[i.Key() := i];
      }
      assert more[..|more|] == more;
    }

    method MatchingEvents(q: Query) returns (out: seq<Event>)
      requires Valid()
      ensures out == Matching(log, events.Length, q, lower)
    {
      hide Match;
      hide Ring;
      hide Found;
      hide Sort;
      hide Stamped;
      hide Matching;
      out := [];
      RingBounds(log, events[..], next, size);
      FoundNothing(log, q, lower);
      for j := 0 to size
        invariant out == Found(log, j, q, lower)
      {
        ReadPosition(log, events[..], next, size, j);
        FoundStep(log, j, q, lower);
        var e := events[(next - 1 - j + events.Length) % events.Length];
        if Match(e, q, lower) {
          out := out + [e];
        }
      }
      SortedMatching(log, events.Length, q, lower);
      out := Sort(out);
    }

    /** The first position past the cursor, by binary search. */
    method Search(all: seq<Event>, c: Cursor) returns (i: nat)
      requires NewestFirst(all)
      ensures i <= |all| && all[i..] == Remaining(all, c)
    {
      i := 0;
      var j := |all|;
      while i < j
        invariant 0 <= i <= j <= |all|
        invariant forall k | 0 <= k < i :: !Past(c, all[k])
        invariant forall k | j <= k < |all| :: Past(c, all[k])
      {
        var h := (i + j) / 2;
        assert forall k | 0 <= k < h :: Newer(all[k], all[h]);
        assert forall k | h < k < |all| :: Newer(all[h], all[k]);
        if Past(c, all[h]) {
          j := h;
        } else {
          i := h + 1;
        }
      }
      RemainingSuffix(all, c, i);
    }

    method Events(q: Query) returns (r: Option<Page>)
      requires Valid()
      ensures r == if !ValidQuery(q) then None
                   else Some(PageOf(Matching(log, events.Length, q, lower), q.cursor,
                                    if q.limit <= 0 then DEFAULT_LIMIT else q.limit))
    {
      if !ValidQuery(q) {
        return None;
      }
      var limit := if q.limit <= 0 then DEFAULT_LIMIT else q.limit;
      var all := MatchingEvents(q);
      MatchingMatches(log, events.Length, q, lower);
      if q.cursor.time != 0 {
        var i := Search(all, q.cursor);
        all := all[i..];
      } else {
        RemainingSuffix(all, q.cursor, 0);
        assert all[0..] == all;
      }
      if |all| > limit {
        r := Some(Page(all[..limit], CursorOf(all[limit - 1]), true));
      } else {
        r := Some(Page(all, START, false));
      }
    }

    method Histogram(q: Query, buckets: int, split: Split, now: int) returns (r: HistogramResult)
      requires Valid()
      ensures r.Rejected? <==> !ValidQuery(q)
      ensures ValidQuery(q) ==> HistogramOf(r, log, events.Length, q, buckets, split, now, lower)
    {
      hide H.Index;
      hide H.Add;
      hide H.Filled;
      hide H.Width;
      hide H.BucketCount;
      hide Matching;
      if !ValidQuery(q) {
        return Rejected;
      }
      var to, from := EffectiveTo(q, now), EffectiveFrom(q, now);
      var wanted := if buckets <= 0 then 60 else buckets;
      var span := H.Sub(to, from);
      if span <= 0 {
        return Counted([]);
      }
      var width := H.Width(span, wanted);
      var n := H.BucketCount(span, width);
      if n < 0 {
        return Crashed;
      }
      var out := H.EmptyBuckets(from, width, n);
      H.EmptyFilled(from, width, n);
      var all := MatchingEvents(q);
      ghost var adds := Adds(all, from, width, split);
      for k := 0 to |all|
        invariant |out| == n && H.Filled(out, from, width, adds[..k])
      {
        var i := H.Index(all[k].time, from, width);
        H.AddFills(out, from, width, adds[..k], i, BucketKey(all[k], split), 1);
        assert adds[k] == ((i, BucketKey(all[k], split)), 1);
        assert adds[..k + 1] == adds[..k] + [adds[k]];
        out := H.Add(out, i, BucketKey(all[k], split), 1);
      }
      assert adds[..|all|] == adds;
      r := Counted(out);
    }

    /** The events of a datacenter from one millisecond after a time on, oldest first. */
    method Since(dc: string, after: int, limit: int) returns (out: seq<Event>)
      requires Valid()
      ensures var all := Reversed(Matching(log, events.Length, ReplayQuery(dc, after), lower));
              out == all[..Min(if limit <= 0 then DEFAULT_LIMIT else limit, |all|)]
    {
      hide Matching;
      var all := MatchingEvents(ReplayQuery(dc, after));
      all := Reverse(all);
      out := all[..Min(if limit <= 0 then DEFAULT_LIMIT else limit, |all|)];
    }
  }

  // ---- pagination under writes -----------------------------------------------

  /** The log before each page, when batches are stored between pages. */
  function Logs(log: seq<Event>, batches: seq<seq<Event>>): seq<seq<Event>>
    decreases |batches|
  {
    [log] + if batches == [] then [] else Logs(log + Stamp(batches[0], |log|), batches[1..])
  }

  function States(log: seq<Event>, batches: seq<seq<Event>>, n: nat, q: Query, lower: Folding): seq<seq<Event>> {
    var logs := Logs(log, batches);
    seq(|logs|, i requires 0 <= i < |logs| => Matching(logs[i], n, q, lower))
  }

  ghost predicate TimesSet(s: seq<Event>) {
    forall e | e in s :: e.time != 0
  }

  lemma {:induction false} LogsStamped(log: seq<Event>, batches: seq<seq<Event>>)
    requires Stamped(log) && TimesSet(log) && forall b | b in batches :: TimesSet(b)
    ensures forall i | 0 <= i < |Logs(log, batches)| ::
              Stamped(Logs(log, batches)[i]) && TimesSet(Logs(log, batches)[i])
    decreases |batches|
  {
    if batches != [] {
      assert batches[0] in batches;
      var stamped := Stamp(batches[0], |log|);
      forall e | e in stamped
        ensures e.time != 0
      {
        var i :| 0 <= i < |stamped| && stamped[i] == e;
        assert batches[0][i] in batches[0];
      }
      LogsStamped(log + stamped, batches[1..]);
    }
  }

  /** Pagination over the ring, with any batches stored and any entries evicted between pages:
      strictly newest first, hence nothing twice; and every matching event that was in the ring
      at all pages read has been returned once a page is the last. */
  lemma RingPagesStable(log: seq<Event>, batches: seq<seq<Event>>, n: nat, q: Query, lower: Folding, limit: int)
    requires n > 0 && limit > 0 && Stamped(log) && TimesSet(log) && forall b | b in batches :: TimesSet(b)
    ensures var logs := Logs(log, batches);
            var pages := Walk(States(log, batches, n, q, lower), START, limit);
            && |pages| <= |logs|
            && NewestFirst(Returned(pages))
            && (forall e | e in Returned(pages) :: Match(e, q, lower))
            && (Finished(pages) ==>
                  forall e | Match(e, q, lower) && (forall i | 0 <= i < |pages| :: e in Latest(logs[i], n)) ::
                    e in Returned(pages))
  {
    hide Match;
    hide Matching;
    hide Walk;
    hide Returned;
    var logs, states := Logs(log, batches), States(log, batches, n, q, lower);
    LogsStamped(log, batches);
    forall i | 0 <= i < |logs|
      ensures NewestFirst(states[i])
      ensures forall e :: e in states[i] <==> e in Latest(logs[i], n) && Match(e, q, lower)
    {
      MatchingMatches(logs[i], n, q, lower);
    }
    NonZeroTimesSetCursors(states, START, limit);
    WalkStable(states, START, limit);
  }
}
