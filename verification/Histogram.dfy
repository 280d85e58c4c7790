/** The arithmetic of histograms (storage/memory/storage.go, storage/mysql/query.go): 64-bit
    durations, division truncating toward zero, bucket widths cut to whole units. */
module Histogram {
  import opened Timeline
  import opened Counting
  import opened Arithmetic
  import Decimal

  const ROLLUP_MIN_RANGE: int := 6 * HOUR

  /** Addition and subtraction of durations wrap around 64 bits. */
  function Wrapped(d: int): int {
    (d - Decimal.MIN_INT64) % 0x1_0000_0000_0000_0000 + Decimal.MIN_INT64
  }

  /** The difference of two times, saturating. */
  function Sub(t: int, u: int): int {
    if t - u > Decimal.MAX_INT64 then Decimal.MAX_INT64
    else if t - u < Decimal.MIN_INT64 then Decimal.MIN_INT64
    else t - u
  }

  /** Division truncating toward zero. */
  function Quotient(a: int, b: int): int
    requires b > 0
  {
    if a >= 0 then a / b else -((-a) / b)
  }

  /** A duration cut to a whole number of units, but at least one. */
  function WholeUnits(d: int, unit: int): (w: int)
    requires unit > 0
    ensures w >= unit
  {
    var whole := d - (if d >= 0 then d % unit else -((-d) % unit));
    if whole < unit then unit else whole
  }

  function Width(span: int, buckets: int): (w: int)
    requires buckets > 0
    ensures w >= SECOND
  {
    WholeUnits(Quotient(Wrapped(span + buckets - 1), buckets), SECOND)
  }

  /** The rollup only has minutes. */
  function RollupWidth(span: int, buckets: int): (w: int)
    requires buckets > 0
    ensures w >= MINUTE
  {
    WholeUnits(Width(span, buckets), MINUTE)
  }

  function BucketCount(span: int, width: int): int
    requires width > 0
  {
    Quotient(Wrapped(span + width - 1), width)
  }

  function Index(t: int, from: int, width: int): int
    requires width > 0
  {
    Quotient(Sub(t, from), width)
  }

  lemma WrappedInRange(d: int)
    requires Decimal.MIN_INT64 <= d <= Decimal.MAX_INT64
    ensures Wrapped(d) == d
  {}

  /** Enough buckets for the span, and none too many. */
  lemma BucketsCoverSpan(span: int, width: int)
    requires span > 0 && width > 0 && span + width - 1 <= Decimal.MAX_INT64
    ensures var n := BucketCount(span, width);
            n >= 1 && (n - 1) * width < span <= n * width
  {
    WrappedInRange(span + width - 1);
    var n := BucketCount(span, width);
    DivisionBounds(span + width - 1, width);
    assert (n - 1) * width == n * width - width;
  }

  /** The last bucket ends at the end of the span exactly when the width divides the span. */
  lemma CoverIsTight(span: int, width: int, n: int)
    requires width > 0 && (n - 1) * width < span <= n * width
    ensures span == n * width <==> span % width == 0
  {
    assert (n - 1) * width == n * width - width;
    var q := span / width;
    assert span == q * width + span % width;
    if span % width == 0 {
      assert (n - q) * width == n * width - q * width;
      LessThanOnce(n - q, width);
    }
    if span == n * width {
      MultipleHasNoRemainder(n, width);
    }
  }

  /** There is a bucket exactly when the rounding addition stays within 64 bits: the span of a
      very old `from` wraps around. */
  lemma BucketsExist(span: int, width: int)
    requires 0 < span <= Decimal.MAX_INT64 && 0 < width <= Decimal.MAX_INT64
    ensures BucketCount(span, width) >= 1 <==> span + width - 1 <= Decimal.MAX_INT64
  {
    if span + width - 1 <= Decimal.MAX_INT64 {
      BucketsCoverSpan(span, width);
    } else {
      var w := span + width - 1 - 0x1_0000_0000_0000_0000;
      assert Wrapped(span + width - 1) == w;
      DivisionBounds(-w, width);
      if (-w) / width < 0 {
        assert ((-w) / width + 1) * width <= 0;
      }
    }
  }

  /** The number of buckets is negative, and making them crashes, exactly when the rounding
      addition wraps around by at least a width. */
  lemma BucketsNegative(span: int, width: int)
    requires 0 < span <= Decimal.MAX_INT64 && 0 < width <= Decimal.MAX_INT64
    ensures BucketCount(span, width) < 0 <==>
              Decimal.MAX_INT64 < span + width - 1 && span + 2 * width - 1 <= 0x1_0000_0000_0000_0000
  {
    if span + width - 1 <= Decimal.MAX_INT64 {
      BucketsCoverSpan(span, width);
    } else {
      var w := span + width - 1 - 0x1_0000_0000_0000_0000;
      assert Wrapped(span + width - 1) == w;
      DivisionBounds(-w, width);
      QuotientIs(w, width, 0);
    }
  }

  /** Cutting a width to whole units never halves it. */
  lemma WholeUnitsBounds(d: int, unit: int)
    requires d > 0 && unit > 0
    ensures var w := WholeUnits(d, unit);
            w >= unit && d < 2 * w && d < w + unit && w % unit == 0
  {
    assert d == (d / unit) * unit + d % unit;
    DivisionBounds(d, unit);
    var w := WholeUnits(d, unit);
    if w != unit {
      assert w == (d / unit) * unit;
      MultipleHasNoRemainder(d / unit, unit);
    }
  }

  /** A cut duration is whole, whatever its sign was. */
  lemma WholeUnitsWhole(d: int, unit: int)
    requires unit > 0
    ensures WholeUnits(d, unit) % unit == 0
  {
    if d > 0 {
      WholeUnitsBounds(d, unit);
    } else {
      DivisionBounds(-d, unit);
    }
  }

  lemma NothingWhole(d: int, unit: int)
    requires d <= 0 && unit > 0
    ensures WholeUnits(d, unit) == unit
  {
    DivisionBounds(-d, unit);
  }

  lemma TwiceAtMost(e: int, n: int)
    requires e >= 0 && n >= 2
    ensures e * 2 <= e * n
  {}

  lemma RoundedUpHalf(span: int, n: int)
    requires span > 0 && n >= 2
    ensures var e := (span + n - 1) / n; 1 <= e && 2 * e <= span + 1
  {
    var e := (span + n - 1) / n;
    DivisionBounds(span + n - 1, n);
    NextMultiple(e, n);
    TwiceAtMost(e - 1, n);
  }

  lemma CutWidth(span: int, buckets: int)
    requires span > 0 && buckets >= 2 && span + buckets - 1 <= Decimal.MAX_INT64
    ensures Width(span, buckets) <= SECOND || 2 * Width(span, buckets) <= span + 1
  {
    WrappedInRange(span + buckets - 1);
    RoundedUpHalf(span, buckets);
    var exact := (span + buckets - 1) / buckets;
    assert Width(span, buckets) == WholeUnits(exact, SECOND);
    hide Wrapped;
    hide Width;
    hide Quotient;
  }

  lemma WrappedWidth(span: int, buckets: int)
    requires span <= Decimal.MAX_INT64 && buckets <= Decimal.MAX_INT64 && 0 < buckets
    requires Decimal.MAX_INT64 < span + buckets - 1
    ensures Width(span, buckets) == SECOND
  {
    var d := span + buckets - 1 - 0x1_0000_0000_0000_0000;
    assert Wrapped(span + buckets - 1) == d;
    QuotientBelowZero(d, buckets);
    NothingWhole(Quotient(d, buckets), SECOND);
    hide Wrapped;
    hide Quotient;
    hide WholeUnits;
  }

  lemma QuotientBelowZero(d: int, n: int)
    requires d < 0 && n > 0
    ensures Quotient(d, n) <= 0
  {
    DivisionBounds(-d, n);
  }

  lemma RollupOfWidth(span: int, buckets: int)
    requires buckets > 0
    ensures RollupWidth(span, buckets) == MINUTE || RollupWidth(span, buckets) <= Width(span, buckets)
  {
    hide Width;
  }

  /** With a width that the program makes for at least two buckets, making them crashes exactly when
      the rounding addition wraps around, and it does for the longest duration, that of any range
      over 292 years. */
  lemma WideSpansCrash(span: int, buckets: int, width: int)
    requires 0 < span <= Decimal.MAX_INT64 && 2 <= buckets <= Decimal.MAX_INT64
    requires width == Width(span, buckets) || width == RollupWidth(span, buckets)
    ensures BucketCount(span, width) < 0 <==> Decimal.MAX_INT64 < span + width - 1
    ensures span == Decimal.MAX_INT64 ==> BucketCount(span, width) < 0
  {
    hide Width;
    hide RollupWidth;
    hide BucketCount;
    RollupOfWidth(span, buckets);
    if span + buckets - 1 <= Decimal.MAX_INT64 {
      CutWidth(span, buckets);
    } else {
      WrappedWidth(span, buckets);
    }
    BucketsNegative(span, width);
  }

  lemma AtMostTwice(span: int, buckets: int, exact: int, width: int, n: int)
    requires buckets > 0 && span <= exact * buckets && 0 < width && exact < 2 * width
    requires (n - 1) * width < span
    ensures n <= 2 * buckets
  {
    assert exact * buckets <= 2 * width * buckets;
    assert (n - 1) * width < 2 * buckets * width;
  }

  lemma ExactWidth(span: int, buckets: int)
    requires span > 0 && buckets > 0 && span + buckets - 1 <= Decimal.MAX_INT64
    ensures var exact := Quotient(Wrapped(span + buckets - 1), buckets);
            exact > 0 && span <= exact * buckets
  {
    WrappedInRange(span + buckets - 1);
    DivisionBounds(span + buckets - 1, buckets);
  }

  /** Cutting the width to seconds makes at most twice the buckets asked for. */
  lemma BucketsBounded(span: int, buckets: int)
    requires span > 0 && buckets > 0 && span + buckets - 1 <= Decimal.MAX_INT64
    requires span + Width(span, buckets) - 1 <= Decimal.MAX_INT64
    ensures 1 <= BucketCount(span, Width(span, buckets)) <= 2 * buckets
  {
    var exact := Quotient(Wrapped(span + buckets - 1), buckets);
    ExactWidth(span, buckets);
    WholeUnitsBounds(exact, SECOND);
    BucketsCoverSpan(span, Width(span, buckets));
    AtMostTwice(span, buckets, exact, Width(span, buckets), BucketCount(span, Width(span, buckets)));
  }

  /** So does cutting it to seconds and then to minutes. */
  lemma RollupBucketsBounded(span: int, buckets: int)
    requires span > 0 && buckets > 0 && span + buckets - 1 <= Decimal.MAX_INT64
    requires span + RollupWidth(span, buckets) - 1 <= Decimal.MAX_INT64
    ensures 1 <= BucketCount(span, RollupWidth(span, buckets)) <= 2 * buckets
    ensures RollupWidth(span, buckets) % MINUTE == 0
  {
    var exact := Quotient(Wrapped(span + buckets - 1), buckets);
    var width := RollupWidth(span, buckets);
    ExactWidth(span, buckets);
    WholeUnitsBounds(exact, SECOND);
    WholeUnitsBounds(Width(span, buckets), MINUTE);
    TwoCuts(exact);
    BucketsCoverSpan(span, width);
    AtMostTwice(span, buckets, exact, width, BucketCount(span, width));
  }

  /** Cutting to seconds and then to minutes never halves a duration either. */
  lemma TwoCuts(d: int)
    requires d > 0
    ensures d < 2 * WholeUnits(WholeUnits(d, SECOND), MINUTE)
  {
    var w := WholeUnits(d, SECOND);
    WholeUnitsBounds(d, SECOND);
    WholeUnitsBounds(w, MINUTE);
    var v := WholeUnits(w, MINUTE);
    assert w == (w / SECOND) * SECOND && v == (v / MINUTE) * MINUTE;
    assert w + SECOND <= 2 * v;
    assert d < w + SECOND;
  }

  lemma ProductAtMost(n: int, k: int, w: int, e: int)
    requires n <= k && 0 <= k && 0 < w <= e
    ensures n * w <= k * e
  {
    assert n * w <= k * w;
  }

  lemma AtLeastAsked(span: int, asked: int, exact: int, width: int, n: int)
    requires asked > 0 && asked <= exact && exact * asked <= span + asked - 1
    requires 0 < width <= exact && span <= n * width
    ensures asked <= n
  {
    assert (asked - 1) * exact == exact * asked - exact;
    if n < asked {
      ProductAtMost(n, asked - 1, width, exact);
    }
  }

  lemma RoundedUp(span: int, asked: int, unit: nat)
    requires asked > 0 && asked * unit <= span
    ensures var exact := (span + asked - 1) / asked; unit <= exact && exact * asked <= span + asked - 1 && exact <= span
  {
    var more := span + asked - 1;
    assert Quotient(more, asked) == more / asked;
    hide Quotient;
    DivisionBounds(more, asked);
    QuotientBelow(more, asked, unit);
    QuotientBelow(more, asked, span + 1);
    assert (span + 1) * asked == span * asked + asked;
    ProductAtMost(span, span, 1, asked);
  }

  lemma CutAtMost(d: int, unit: int)
    requires 0 < unit <= d
    ensures unit <= WholeUnits(d, unit) <= d
  {
    DivisionBounds(d, unit);
  }

  /** Over a range that has room for them there are at least as many buckets as asked for, and at
      most twice as many. */
  lemma BucketsAsked(span: int, asked: int)
    requires 0 < asked <= SECOND && asked * SECOND <= span && 2 * span <= Decimal.MAX_INT64
    ensures var width := Width(span, asked);
            && 0 < width <= span && asked <= BucketCount(span, width) <= 2 * asked
  {
    var exact := (span + asked - 1) / asked;
    RoundedUp(span, asked, SECOND);
    assert asked <= span;
    WrappedInRange(span + asked - 1);
    assert Width(span, asked) == WholeUnits(exact, SECOND);
    CutAtMost(exact, SECOND);
    var width := Width(span, asked);
    hide Width;
    hide WholeUnits;
    BucketsCoverSpan(span, width);
    AtLeastAsked(span, asked, exact, width, BucketCount(span, width));
    BucketsBounded(span, asked);
  }

  /** So there are from the rollup, over a range that has room for as many minutes. */
  lemma RollupBucketsAsked(span: int, asked: int)
    requires 0 < asked <= SECOND && asked * MINUTE <= span && 2 * span <= Decimal.MAX_INT64
    ensures var width := RollupWidth(span, asked);
            && 0 < width <= span && asked <= BucketCount(span, width) <= 2 * asked
  {
    var exact := (span + asked - 1) / asked;
    RoundedUp(span, asked, MINUTE);
    assert asked <= span;
    WrappedInRange(span + asked - 1);
    assert Width(span, asked) == WholeUnits(exact, SECOND);
    CutAtMost(exact, SECOND);
    WholeMinuteLeft(exact);
    CutAtMost(Width(span, asked), MINUTE);
    var width := RollupWidth(span, asked);
    hide Width;
    hide RollupWidth;
    hide WholeUnits;
    BucketsCoverSpan(span, width);
    AtLeastAsked(span, asked, exact, width, BucketCount(span, width));
    RollupBucketsBounded(span, asked);
  }

  lemma WholeMinuteLeft(d: int)
    requires d >= MINUTE
    ensures WholeUnits(d, SECOND) >= MINUTE
  {
    DivisionBounds(d, SECOND);
  }

  /** The width of a range that is not too long leaves room for the rounding addition. */
  lemma WidthFits(span: int, asked: int)
    requires 0 < span && 0 < asked && 2 * span <= Decimal.MAX_INT64 && 2 * asked <= Decimal.MAX_INT64
    ensures var width := Width(span, asked);
            width % SECOND == 0 && width <= Decimal.MAX_INT64 && span + width - 1 <= Decimal.MAX_INT64
  {
    var exact := (span + asked - 1) / asked;
    RoundedUp(span, asked, 0);
    WrappedInRange(span + asked - 1);
    WholeUnitsWhole(Quotient(span + asked - 1, asked), SECOND);
    assert Width(span, asked) == WholeUnits(exact, SECOND);
    if exact >= SECOND {
      CutAtMost(exact, SECOND);
    } else {
      CutBelow(exact, SECOND);
    }
    hide Width;
    hide WholeUnits;
  }

  lemma RollupFits(span: int, asked: int)
    requires 6 * HOUR <= span && 0 < asked && 2 * span <= Decimal.MAX_INT64 && 2 * asked <= Decimal.MAX_INT64
    ensures span + RollupWidth(span, asked) - 1 <= Decimal.MAX_INT64
  {
    WidthFits(span, asked);
    RollupOfWidth(span, asked);
    hide Width;
    hide RollupWidth;
  }

  lemma CutBelow(d: int, unit: int)
    requires d < unit && 0 < unit
    ensures WholeUnits(d, unit) == unit
  {
    DivisionBounds(d, unit);
    DivisionBounds(-d, unit);
  }

  /** The buckets of a width made for a range that is not too long. */
  lemma WidthCovers(span: int, asked: int)
    requires 0 < span && 0 < asked <= SECOND && 2 * span <= Decimal.MAX_INT64
    ensures var width := Width(span, asked);
            var n := BucketCount(span, width);
            && width % SECOND == 0 && n >= 1 && (n - 1) * width < span <= n * width
            && (asked * SECOND <= span ==> asked <= n <= 2 * asked)
  {
    WidthFits(span, asked);
    if asked * SECOND <= span {
      BucketsAsked(span, asked);
    }
    hide Width;
    BucketsCoverSpan(span, Width(span, asked));
    hide BucketCount;
  }

  lemma RollupCovers(span: int, asked: int)
    requires 6 * HOUR <= span && 0 < asked <= SECOND && 2 * span <= Decimal.MAX_INT64
    ensures var width := RollupWidth(span, asked);
            var n := BucketCount(span, width);
            && width % MINUTE == 0 && n >= 1 && (n - 1) * width < span <= n * width
            && (asked * MINUTE <= span ==> asked <= n <= 2 * asked)
  {
    WholeUnitsWhole(Width(span, asked), MINUTE);
    RollupFits(span, asked);
    if asked * MINUTE <= span {
      RollupBucketsAsked(span, asked);
    }
    hide RollupWidth;
    BucketsCoverSpan(span, RollupWidth(span, asked));
    hide BucketCount;
  }

  /** The times a bucket counts. Truncation toward zero makes the first one reach one width
      below the start. */
  predicate InBucket(t: int, from: int, width: int, i: int) {
    (if i == 0 then from - width < t else from + i * width <= t) && t < from + (i + 1) * width
  }

  lemma QuotientIs(d: int, width: int, i: nat)
    requires width > 0
    ensures Quotient(d, width) == i <==> (if i == 0 then -width < d else i * width <= d) && d < i * width + width
  {
    if d >= 0 {
      DivisionBounds(d, width);
      if i * width <= d < i * width + width {
        DivisionUnique(d, width, i);
      }
    } else {
      DivisionBounds(-d, width);
      if -d < width {
        DivisionUnique(-d, width, 0);
      }
    }
  }

  lemma LastBucketFits(i: int, n: int, width: int)
    requires 0 <= i < n && width > 0
    ensures 0 <= i * width && i * width + width <= n * width
  {
    AtLeastOnce(n - i, width);
    assert n * width == i * width + (n - i) * width;
  }

  /** An event falls into the bucket its index names. */
  lemma IndexIsBucket(t: int, from: int, width: int, n: int, i: int)
    requires width > 0 && 0 <= i < n && n * width <= Decimal.MAX_INT64
    ensures Index(t, from, width) == i <==> InBucket(t, from, width, i)
  {
    var start := i * width;
    QuotientIs(Sub(t, from), width, i);
    assert (i + 1) * width == start + width;
    LastBucketFits(i, n, width);
  }

  /** A time has a bucket exactly when it is before the end of the last one; truncation toward
      zero takes in times up to one width before the first. */
  lemma InRangeIff(t: int, from: int, width: int, n: nat)
    requires width > 0 && n * width <= Decimal.MAX_INT64 && from - width < t && (n > 0 || from <= t)
    ensures 0 <= Index(t, from, width) < n <==> t < from + n * width
  {
    var d := Sub(t, from);
    var covered := n * width;
    hide Quotient;
    if t < from {
      QuotientIs(d, width, 0);
      AtLeastOnce(n, width);
    } else {
      QuotientBelow(d, width, n);
      assert d < covered <==> t - from < covered;
    }
  }

  lemma QuotientBelow(d: int, width: int, n: nat)
    requires width > 0 && d >= 0
    ensures 0 <= Quotient(d, width) && (Quotient(d, width) < n <==> d < n * width)
  {
    var i := d / width;
    DivisionBounds(d, width);
    if i < n {
      LastBucketFits(i, n, width);
    } else {
      assert (i - n) * width >= 0 && i * width == (i - n) * width + n * width;
    }
  }

  /** So the times counted at all are those from less than a width before the start to the end of
      the last bucket. */
  lemma InRangeExactly(t: int, from: int, width: int, n: nat)
    requires 0 < width <= Decimal.MAX_INT64 && n > 0 && n * width <= Decimal.MAX_INT64
    ensures 0 <= Index(t, from, width) < n <==> from - width < t < from + n * width
  {
    if from - width < t {
      InRangeIff(t, from, width, n);
    } else {
      var d := Sub(t, from);
      assert d <= -width;
      hide Sub;
      QuotientAtMost(d, width);
    }
  }

  lemma QuotientAtMost(d: int, width: int)
    requires width > 0 && d <= -width
    ensures Quotient(d, width) < 0
  {
    DivisionBounds(-d, width);
  }

  // ---- filling the buckets ---------------------------------------------------

  datatype Bucket = Bucket(start: int, total: nat, parts: map<string, nat>)

  function EmptyBuckets(from: int, width: int, n: nat): seq<Bucket> {
    seq(n, i => Bucket(from + i * width, 0, map[]))
  }

  function Get(parts: map<string, nat>, key: string): nat {
    if key in parts then parts[key] else 0
  }

  /** The closure `add`: out-of-range slots are dropped. */
  function Add(out: seq<Bucket>, i: int, key: string, count: nat): seq<Bucket> {
    if i < 0 || i >= |out| then out
    else out[i := Bucket(out[i].start, out[i].total + count, out[i].parts[key := Get(out[i].parts, key) + count])]
  }

  /** One call of `add`. */
  type Slot = ((int, string), nat)

  type Condition = ((int, string)) -> bool

  function AtIndex(i: int): Condition { (k: (int, string)) => k.0 == i }
  function AtCell(i: int, key: string): Condition { (k: (int, string)) => k.0 == i && k.1 == key }
  function AmongKeys(i: int, keys: seq<string>): Condition { (k: (int, string)) => k.0 == i && k.1 in keys }
  function InRange(n: int): Condition { (k: (int, string)) => 0 <= k.0 < n }

  /** Buckets that hold the totals of the calls made. */
  ghost predicate Filled(out: seq<Bucket>, from: int, width: int, adds: seq<Slot>) {
    forall i | 0 <= i < |out| ::
      && out[i].start == from + i * width
      && out[i].total == Total(adds, AtIndex(i))
      && forall key :: Get(out[i].parts, key) == Total(adds, AtCell(i, key))
  }

  lemma EmptyFilled(from: int, width: int, n: nat)
    ensures Filled(EmptyBuckets(from, width, n), from, width, [])
  {}

  lemma AddFills(out: seq<Bucket>, from: int, width: int, adds: seq<Slot>, i: int, key: string, count: nat)
    requires Filled(out, from, width, adds)
    ensures |Add(out, i, key, count)| == |out|
    ensures Filled(Add(out, i, key, count), from, width, adds + [((i, key), count)])
  {
    var more := adds + [((i, key), count)];
    assert more[..|more| - 1] == adds;
    forall j | 0 <= j < |out|
      ensures Add(out, i, key, count)[j].total == Total(more, AtIndex(j))
    {}
    forall j, other | 0 <= j < |out|
      ensures Get(Add(out, i, key, count)[j].parts, other) == Total(more, AtCell(j, other))
    {
      assert Get(out[j].parts, other) == Total(adds, AtCell(j, other));
    }
  }

  function SumBuckets(out: seq<Bucket>): nat {
    if out == [] then 0 else SumBuckets(out[..|out| - 1]) + out[|out| - 1].total
  }

  lemma {:induction false} TotalSplit<K>(table: seq<(K, nat)>, p: K -> bool, q: K -> bool, r: K -> bool)
    requires forall k :: (p(k) <==> q(k) || r(k)) && !(q(k) && r(k))
    ensures Total(table, p) == Total(table, q) + Total(table, r)
  {
    if table != [] {
      TotalSplit(table[..|table| - 1], p, q, r);
    }
  }

  lemma {:induction false} TotalNone<K>(table: seq<(K, nat)>, p: K -> bool)
    requires forall k :: !p(k)
    ensures Total(table, p) == 0
  {
    if table != [] {
      TotalNone(table[..|table| - 1], p);
    }
  }

  /** Nothing is lost: the totals add up to every call in range. */
  lemma {:induction false} Conserved(out: seq<Bucket>, from: int, width: int, adds: seq<Slot>)
    requires Filled(out, from, width, adds)
    ensures SumBuckets(out) == Total(adds, InRange(|out|))
  {
    var inRange := InRange(|out|);
    if out == [] {
      TotalNone(adds, inRange);
    } else {
      var init := out[..|out| - 1];
      assert Filled(init, from, width, adds);
      Conserved(init, from, width, adds);
      TotalSplit(adds, inRange, InRange(|init|), AtIndex(|init|));
    }
  }

  function SumOver(parts: map<string, nat>, keys: seq<string>): nat {
    if keys == [] then 0 else SumOver(parts, keys[..|keys| - 1]) + Get(parts, keys[|keys| - 1])
  }

  lemma {:induction false} SumOverCounts(parts: map<string, nat>, keys: seq<string>, adds: seq<Slot>, i: int)
    requires Distinct(keys)
    requires forall key :: Get(parts, key) == Total(adds, AtCell(i, key))
    ensures SumOver(parts, keys) == Total(adds, AmongKeys(i, keys))
  {
    var wanted := AmongKeys(i, keys);
    if keys == [] {
      TotalNone(adds, wanted);
    } else {
      var init, last := keys[..|keys| - 1], keys[|keys| - 1];
      SumOverCounts(parts, init, adds, i);
      assert keys == init + [last] && last !in init;
      TotalSplit(adds, wanted, AmongKeys(i, init), AtCell(i, last));
    }
  }

  /** Each total is the sum of its breakdown, over any listing of the keys. */
  lemma TotalIsSumOfParts(out: seq<Bucket>, from: int, width: int, adds: seq<Slot>, i: nat, keys: seq<string>)
    requires Filled(out, from, width, adds) && i < |out|
    requires Distinct(keys) && forall key :: key in keys <==> key in out[i].parts
    ensures SumOver(out[i].parts, keys) == out[i].total
  {
    var parts := out[i].parts;
    SumOverCounts(parts, keys, adds, i);
    forall key | key !in keys
      ensures Total(adds, AtCell(i, key)) == 0
    {
      assert Get(parts, key) == 0;
    }
    OnlyKeys(adds, i, keys);
  }

  lemma {:induction false} OnlyKeys(adds: seq<Slot>, i: int, keys: seq<string>)
    requires forall key | key !in keys :: Total(adds, AtCell(i, key)) == 0
    ensures Total(adds, AmongKeys(i, keys)) == Total(adds, AtIndex(i))
  {
    if adds != [] {
      var init, last := adds[..|adds| - 1], adds[|adds| - 1];
      forall key | key !in keys
        ensures Total(init, AtCell(i, key)) == 0
      {
        assert Total(adds, AtCell(i, key)) == 0;
      }
      OnlyKeys(init, i, keys);
      if last.0.0 == i && last.0.1 !in keys {
        assert Total(adds, AtCell(i, last.0.1)) == 0;
      }
    }
  }
}
