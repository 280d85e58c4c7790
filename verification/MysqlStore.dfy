/** Writing and maintaining the database tables (storage/mysql/storage.go): chunked transactions
    that keep the rollup in step with the rows, and daily partition maintenance. */
module MysqlStore {
  import opened Wrappers
  import opened Timeline
  import opened Counting
  import opened MysqlTables
  import M = MemoryStore

  // ---- the rollup ------------------------------------------------------------

  datatype RollupKey = RollupKey(dc: string, minute: int, kind: int, status: int)

  type Rollup = map<RollupKey, nat>

  function MinuteOf(t: int): int { t - t % MINUTE }

  function KeyOf(e: Event): RollupKey {
    RollupKey(e.datacenter, MinuteOf(e.time), e.kind, e.NewStatus())
  }

  const ROW_KEY: Event -> RollupKey := (e: Event) => KeyOf(e)
  const EVERY_ROW: Event -> bool := (e: Event) => true

  function Under(key: RollupKey): Event -> bool {
    (e: Event) => KeyOf(e) == key
  }

  function Get(r: Rollup, key: RollupKey): nat {
    if key in r then r[key] else 0
  }

  /** The counts of a chunk. */
  function Tally(events: seq<Event>): Rollup {
    if events == [] then map[]
    else
      var r := Tally(events[..|events| - 1]);
      var key := KeyOf(events[|events| - 1]);
      r[key := Get(r, key) + 1]
  }

  /** INSERT ... ON DUPLICATE KEY UPDATE n = n + VALUES(n). */
  function Merge(r: Rollup, counts: Rollup): Rollup {
    map key | key in r.Keys + counts.Keys :: Get(r, key) + Get(counts, key)
  }

  lemma {:induction false} TallyCounts(events: seq<Event>, key: RollupKey)
    ensures Get(Tally(events), key) == Count(events, Under(key))
  {
    if events != [] {
      TallyCounts(events[..|events| - 1], key);
    }
  }

  /** For every minute not yet expired, the rollup counts the rows. */
  ghost predicate RollupHolds(t: Table, r: Rollup, cutoff: int) {
    forall key: RollupKey | cutoff <= key.minute :: Get(r, key) == CountRows(t, Under(key))
  }

  ghost predicate IsListing(listing: seq<(RollupKey, nat)>, r: Rollup) {
    && DistinctKeys(listing)
    && (forall i | 0 <= i < |listing| :: listing[i].0 in r && listing[i].1 == r[listing[i].0])
    && (forall key | key in r :: HasKey(listing, key))
  }

  lemma CountSome(rows: seq<Event>, e: Event, p: Event -> bool)
    requires e in rows && p(e)
    ensures Count(rows, p) > 0
  {
    if rows[|rows| - 1] != e {
      assert rows == rows[..|rows| - 1] + [rows[|rows| - 1]];
      CountSome(rows[..|rows| - 1], e, p);
    }
  }

  /** Any listing of the rollup tabulates the rows, for conditions on unexpired minutes. */
  lemma RollupTabulates(t: Table, r: Rollup, cutoff: int, listing: seq<(RollupKey, nat)>, cond: RollupKey -> bool)
    requires RollupHolds(t, r, cutoff) && IsListing(listing, r) && forall key | cond(key) :: cutoff <= key.minute
    ensures Tabulates(listing, Rows(t), EVERY_ROW, ROW_KEY, cond)
  {
    hide CountRows;
    hide Rows;
    forall i | 0 <= i < |listing| && cond(listing[i].0)
      ensures listing[i].1 == Count(Rows(t), WithKey(EVERY_ROW, ROW_KEY, listing[i].0))
    {
      var key := listing[i].0;
      RowsCount(t, Under(key));
      assert forall e: Event :: Under(key)(e) == WithKey(EVERY_ROW, ROW_KEY, key)(e);
      CountSame(Rows(t), Under(listing[i].0), WithKey(EVERY_ROW, ROW_KEY, listing[i].0));
    }
    forall e | e in Rows(t) && cond(KeyOf(e))
      ensures HasKey(listing, KeyOf(e))
    {
      RowsCount(t, Under(KeyOf(e)));
      CountSome(Rows(t), e, Under(KeyOf(e)));
    }
  }

  /** The rows that one entry of the rollup is to count. */
  function OfMinute(dc: string, minute: int, kind: int, status: int): Event -> bool {
    (e: Event) => e.datacenter == dc && minute <= e.time < minute + MINUTE && e.kind == kind && e.NewStatus() == status
  }

  lemma SameMinute(t: int, minute: int)
    requires minute % MINUTE == 0
    ensures MinuteOf(t) == minute <==> minute <= t < minute + MINUTE
  {}

  /** The entry of a datacenter, a minute that has not expired, a kind and a status counts the rows of
      just those. */
  lemma RollupMeans(t: Table, r: Rollup, cutoff: int, dc: string, minute: int, kind: int, status: int)
    requires RollupHolds(t, r, cutoff) && cutoff <= minute && minute % MINUTE == 0
    ensures Get(r, RollupKey(dc, minute, kind, status)) == Count(Rows(t), OfMinute(dc, minute, kind, status))
  {
    hide CountRows;
    hide Rows;
    var key := RollupKey(dc, minute, kind, status);
    RowsCount(t, Under(key));
    forall e: Event
      ensures Under(key)(e) == OfMinute(dc, minute, kind, status)(e)
    {
      SameMinute(e.time, minute);
    }
    CountSame(Rows(t), Under(key), OfMinute(dc, minute, kind, status));
  }

  // ---- partition maintenance -------------------------------------------------

  function LatestDay(parts: seq<Part>): (d: int)
    ensures 0 <= d && UpToDay(parts, d)
    ensures d > 0 ==> exists i | 0 <= i < |parts| :: parts[i].day == d
  {
    if parts == [] then 0
    else
      var d := LatestDay(parts[..|parts| - 1]);
      if parts[|parts| - 1].day > d then parts[|parts| - 1].day else d
  }

  predicate HasDay(parts: seq<Part>, day: int) {
    exists i | 0 <= i < |parts| :: parts[i].day == day
  }

  /** A table after some statements, whether all succeeded, and the days they were about. */
  datatype Altered = Altered(table: Table, ok: bool, issued: seq<int>)

  /** The loop of `ensurePartitions`; `ddl` says which statements the database executes. */
  function EnsureDays(t: Table, existing: seq<Part>, latest: int, days: seq<int>, ddl: int -> bool): Altered
    decreases |days|
  {
    if days == [] then Altered(t, true, [])
    else
      var day := days[0];
      if HasDay(existing, day) || day <= latest then EnsureDays(t, existing, latest, days[1..], ddl)
      else if !ddl(day) || Reorganize(t, day).None? then Altered(t, false, [day])
      else
        var r := EnsureDays(Reorganize(t, day).value, existing, day, days[1..], ddl);
        r.(issued := [day] + r.issued)
  }

  function Ensure(t: Table, today: int, ddl: int -> bool): Altered {
    EnsureDays(t, t.parts, LatestDay(t.parts), [today - 1, today, today + 1], ddl)
  }

  function PartOf(parts: seq<Part>, day: int): (i: nat)
    requires HasDay(parts, day)
    ensures i < |parts| && parts[i].day == day
  {
    if parts[0].day == day then 0
    else
      assert parts[1..][(var i :| 0 <= i < |parts| && parts[i].day == day; i) - 1].day == day;
      PartOf(parts[1..], day) + 1
  }

  /** The loop of `dropExpiredPartitions` over a listing of the partitions, in any order. */
  function DropDays(t: Table, names: seq<int>, cutoff: int, ddl: int -> bool): Altered
    decreases |names|
  {
    if names == [] then Altered(t, true, [])
    else
      var day := names[0];
      if day + 1 > cutoff then DropDays(t, names[1..], cutoff, ddl)
      else if !ddl(day) || !HasDay(t.parts, day) then Altered(t, false, [day])
      else
        var r := DropDays(Drop(t, PartOf(t.parts, day)), names[1..], cutoff, ddl);
        r.(issued := [day] + r.issued)
  }

  ghost predicate UpToDay(parts: seq<Part>, day: int) {
    forall i | 0 <= i < |parts| :: parts[i].day <= day
  }

  ghost predicate Ascending(days: seq<int>) {
    forall i, j | 0 <= i < j < |days| :: days[i] < days[j]
  }

  lemma AscendingCons(day: int, days: seq<int>)
    requires Ascending(days) && forall d | d in days :: day < d
    ensures Ascending([day] + days)
  {
    assert forall j | 0 <= j < |days| :: days[j] in days;
  }

  lemma ReorganizedDays(t: Table, day: int)
    requires Reorganize(t, day).Some? && UpToDay(t.parts, day)
    ensures UpToDay(Reorganize(t, day).value.parts, day)
    ensures forall d :: HasDay(Reorganize(t, day).value.parts, d) <==> HasDay(t.parts, d) || d == day
  {
    var next := Reorganize(t, day).value.parts;
    assert next[|t.parts|].day == day;
    assert forall i | 0 <= i < |t.parts| :: next[i] == t.parts[i];
  }

  /** Adding the missing partitions loses no row and leaves each in its place. */
  lemma {:induction false} EnsureDaysKeeps(t: Table, existing: seq<Part>, latest: int, days: seq<int>,
                                           ddl: int -> bool, p: Event -> bool)
    requires Placed(t) && t.hasMax && 0 <= latest && UpToDay(t.parts, latest)
    ensures var r := EnsureDays(t, existing, latest, days, ddl).table;
            Placed(r) && r.hasMax && CountRows(r, p) == CountRows(t, p)
    decreases |days|
  {
    hide Placed;
    hide CountRows;
    hide HasDay;
    if days != [] {
      var day := days[0];
      if HasDay(existing, day) || day <= latest {
        EnsureDaysKeeps(t, existing, latest, days[1..], ddl, p);
      } else if ddl(day) {
        ReorganizeKeeps(t, day, p);
        ReorganizedDays(t, day);
        EnsureDaysKeeps(Reorganize(t, day).value, existing, day, days[1..], ddl, p);
      }
    }
  }

  /** Every statement issued has a bound above all existing ones, so the database never has a
      reason to refuse it; the new partitions are those whose statement went through. */
  lemma {:induction false} EnsureDaysAbove(t: Table, existing: seq<Part>, latest: int, days: seq<int>, ddl: int -> bool)
    requires t.hasMax && 0 <= latest && UpToDay(t.parts, latest)
    ensures var r := EnsureDays(t, existing, latest, days, ddl);
            && (r.ok <==> forall d | d in r.issued :: ddl(d))
            && (forall d | d in r.issued :: latest < d && d in days)
            && Ascending(r.issued)
            && (forall d :: HasDay(r.table.parts, d) <==> HasDay(t.parts, d) || (d in r.issued && ddl(d)))
    decreases |days|
  {
    hide HasDay;
    if days != [] {
      var day := days[0];
      assert days == [day] + days[1..];
      if HasDay(existing, day) || day <= latest {
        EnsureDaysAbove(t, existing, latest, days[1..], ddl);
      } else if ddl(day) {
        var next := Reorganize(t, day).value;
        ReorganizedDays(t, day);
        EnsureDaysAbove(next, existing, day, days[1..], ddl);
        var issued := EnsureDays(next, existing, day, days[1..], ddl).issued;
        AscendingCons(day, issued);
      }
    }
  }

  /** When nothing fails, the days issued are those above the latest partition. */
  lemma {:induction false} EnsureDaysIssues(t: Table, existing: seq<Part>, latest: int, days: seq<int>,
                                            ddl: int -> bool, d: int)
    requires Ascending(days)
    requires d in days && forall i | 0 <= i < |existing| :: existing[i].day <= latest
    requires EnsureDays(t, existing, latest, days, ddl).ok
    ensures latest < d ==> d in EnsureDays(t, existing, latest, days, ddl).issued
    decreases |days|
  {
    var day := days[0];
    if day <= latest {
      if d != day {
        EnsureDaysIssues(t, existing, latest, days[1..], ddl, d);
      }
    } else if d != day {
      EnsureDaysIssues(Reorganize(t, day).value, existing, day, days[1..], ddl, d);
    }
  }

  lemma EnsureKeeps(t: Table, today: int, ddl: int -> bool, p: Event -> bool)
    requires Placed(t) && t.hasMax
    ensures var r := Ensure(t, today, ddl);
            && Placed(r.table) && r.table.hasMax && CountRows(r.table, p) == CountRows(t, p)
            && (r.ok <==> forall d | d in r.issued :: ddl(d))
            && (forall d | d in r.issued :: d in {today - 1, today, today + 1})
            && (forall d, i | d in r.issued && 0 <= i < |t.parts| :: t.parts[i].day < d)
            && Ascending(r.issued)
            && (forall d :: HasDay(r.table.parts, d) <==> HasDay(t.parts, d) || (d in r.issued && ddl(d)))
  {
    hide EnsureDays;
    hide Placed;
    hide HasDay;
    EnsureDaysKeeps(t, t.parts, LatestDay(t.parts), [today - 1, today, today + 1], ddl, p);
    EnsureDaysAbove(t, t.parts, LatestDay(t.parts), [today - 1, today, today + 1], ddl);
  }

  /** A successful run issues the days above the latest partition, so that tomorrow's rows have
      a day partition. */
  lemma EnsureCovers(t: Table, today: int, ddl: int -> bool)
    requires t.hasMax && Ensure(t, today, ddl).ok
    ensures forall d | d in {today - 1, today, today + 1} ::
              LatestDay(t.parts) < d <==> d in Ensure(t, today, ddl).issued
  {
    hide EnsureDays;
    hide HasDay;
    var days := [today - 1, today, today + 1];
    EnsureDaysAbove(t, t.parts, LatestDay(t.parts), days, ddl);
    forall d | d in {today - 1, today, today + 1} && LatestDay(t.parts) < d
      ensures d in Ensure(t, today, ddl).issued
    {
      assert d in days;
      EnsureDaysIssues(t, t.parts, LatestDay(t.parts), days, ddl, d);
    }
  }

  ghost predicate Listing(names: seq<int>, parts: seq<Part>) {
    && (forall i, j | 0 <= i < j < |names| :: names[i] != names[j])
    && (forall d :: d in names <==> HasDay(parts, d))
  }

  lemma {:induction false} DropDaysKeeps(t: Table, names: seq<int>, cutoff: int, ddl: int -> bool, p: Event -> bool)
    requires Placed(t) && forall e | p(e) :: cutoff <= DayOf(e.time)
    requires (forall i, j | 0 <= i < j < |names| :: names[i] != names[j]) && forall d | d in names :: HasDay(t.parts, d)
    ensures var r := DropDays(t, names, cutoff, ddl);
            && Placed(r.table) && r.table.hasMax == t.hasMax && CountRows(r.table, p) == CountRows(t, p)
            && (r.ok <==> forall d | d in r.issued :: ddl(d))
            && (forall d | d in r.issued :: d + 1 <= cutoff && d in names)
            && (forall d | d in names && d + 1 <= cutoff && r.ok :: d in r.issued)
            && (forall d :: HasDay(r.table.parts, d) <==> HasDay(t.parts, d) && !(d in r.issued && ddl(d)))
    decreases |names|
  {
    hide CountRows;
    if names != [] {
      var day := names[0];
      assert names == [day] + names[1..];
      if day + 1 > cutoff {
        DropDaysKeeps(t, names[1..], cutoff, ddl, p);
      } else if ddl(day) {
        var i := PartOf(t.parts, day);
        var next := Drop(t, i);
        DropKeeps(t, i, p);
        DropDay(t, i);
        hide Placed;
        DropDaysKeeps(next, names[1..], cutoff, ddl, p);
      }
    }
  }

  lemma DropDay(t: Table, i: nat)
    requires Placed(t) && i < |t.parts|
    ensures forall d :: HasDay(Drop(t, i).parts, d) <==> HasDay(t.parts, d) && d != t.parts[i].day
  {
    var r := Drop(t, i).parts;
    assert forall k | 0 <= k < |r| :: r[k] == t.parts[if k < i then k else k + 1];
    assert forall k | 0 <= k < i :: r[k] == t.parts[k];
    assert forall k | i < k < |t.parts| :: r[k - 1] == t.parts[k];
  }

  /** A successful pass drops exactly the partitions that end by the cutoff, and no row at or
      after it. */
  lemma DropExact(t: Table, names: seq<int>, cutoff: int, ddl: int -> bool, p: Event -> bool)
    requires Placed(t) && Listing(names, t.parts) && forall e | p(e) :: cutoff <= DayOf(e.time)
    requires DropDays(t, names, cutoff, ddl).ok
    ensures var r := DropDays(t, names, cutoff, ddl).table;
            && Placed(r) && CountRows(r, p) == CountRows(t, p)
            && forall d :: HasDay(r.parts, d) <==> HasDay(t.parts, d) && cutoff < d + 1
  {
    DropDaysKeeps(t, names, cutoff, ddl, p);
  }

  predicate Always(day: int) { true }

  /** Table and statements of one maintenance run in which the database executes everything. */
  function Maintained(t: Table, today: int, retention: int, names: seq<int>): Altered {
    var ensured := Ensure(t, today, Always);
    var dropped := DropDays(ensured.table, names, today - retention, Always);
    Altered(dropped.table, true, ensured.issued + dropped.issued)
  }

  lemma HasLatest(parts: seq<Part>, day: int)
    ensures HasDay(parts, day) ==> day <= LatestDay(parts)
    ensures LatestDay(parts) > 0 ==> HasDay(parts, LatestDay(parts))
  {}

  lemma HasUpTo(parts: seq<Part>, bound: int)
    requires UpToDay(parts, bound)
    ensures forall d | HasDay(parts, d) :: d <= bound
  {}

  lemma EnsureNothing(t: Table, today: int, ddl: int -> bool)
    requires today + 1 <= LatestDay(t.parts)
    ensures Ensure(t, today, ddl) == Altered(t, true, [])
  {
    hide HasDay;
    var latest := LatestDay(t.parts);
    assert [today - 1, today, today + 1][1..] == [today, today + 1];
    assert [today, today + 1][1..] == [today + 1] && [today + 1][1..] == [];
    assert EnsureDays(t, t.parts, latest, [today + 1], ddl) == Altered(t, true, []);
    assert EnsureDays(t, t.parts, latest, [today, today + 1], ddl) == Altered(t, true, []);
  }

  lemma DropNothing(t: Table, names: seq<int>, cutoff: int, ddl: int -> bool)
    requires forall d | d in names :: cutoff < d + 1
    ensures DropDays(t, names, cutoff, ddl) == Altered(t, true, [])
    decreases |names|
  {
    hide HasDay;
    if names != [] {
      assert names[0] in names && forall d | d in names[1..] :: d in names;
      DropNothing(t, names[1..], cutoff, ddl);
    }
  }

  /** Running maintenance again on the same day issues no statement, on a table with no
      partition past tomorrow, exactly when the retention does not reach past tomorrow either. */
  lemma SecondRunIdle(t: Table, today: int, retention: int, names: seq<int>, again: seq<int>)
    requires Placed(t) && t.hasMax && 0 <= today && UpToDay(t.parts, today + 1)
    requires Listing(names, Ensure(t, today, Always).table.parts)
    requires Listing(again, Ensure(Maintained(t, today, retention, names).table, today, Always).table.parts)
    ensures Maintained(Maintained(t, today, retention, names).table, today, retention, again).issued == []
       <==> -1 <= retention
  {
    hide Placed;
    hide HasDay;
    hide EnsureDays;
    hide DropDays;
    var none := (e: Event) => false;
    var cutoff := today - retention;
    var ensured, after := Ensure(t, today, Always).table, Maintained(t, today, retention, names).table;
    EnsureKeeps(t, today, Always, none);
    EnsureCovers(t, today, Always);
    DropDaysKeeps(ensured, names, cutoff, Always, none);
    HasUpTo(t.parts, today + 1);
    HasLatest(t.parts, today + 1);
    HasLatest(after.parts, LatestDay(after.parts));
    HasLatest(after.parts, today + 1);
    if -1 <= retention {
      assert HasDay(ensured.parts, today + 1);
      EnsureNothing(after, today, Always);
      DropNothing(after, again, cutoff, Always);
    } else {
      EnsureKeeps(after, today, Always, none);
      EnsureCovers(after, today, Always);
      assert today + 1 in Ensure(after, today, Always).issued;
    }
  }

  // ---- the store -------------------------------------------------------------

  /** How a transaction ends. A failed COMMIT may still have been applied. */
  datatype Outcome = Applied(reported: bool) | RolledBack

  /** A prefix of n elements, in whole chunks. */
  predicate ChunkBoundary(k: int, n: int, chunk: int)
    requires chunk > 0
  {
    0 <= k <= n && (k % chunk == 0 || k == n)
  }

  /** A transaction was not reported as done, and all chunks before it have gone in, and its own if it
      was applied after all. */
  ghost predicate StoppedAt(stored: int, n: int, chunk: int, outcomes: int -> Outcome)
    requires chunk > 0
  {
    exists start ::
      && 0 <= start < n && start % chunk == 0 && outcomes(start) != Applied(true)
      && stored == if outcomes(start).RolledBack? then start else if start + chunk > n then n else start + chunk
  }

  lemma StopsAt(start: int, stored: int, n: int, chunk: int, outcomes: int -> Outcome)
    requires chunk > 0 && 0 <= start < n && ChunkBoundary(start, n, chunk) && outcomes(start) != Applied(true)
    requires stored == if outcomes(start).RolledBack? then start else if start + chunk > n then n else start + chunk
    ensures StoppedAt(stored, n, chunk, outcomes)
  {}

  lemma {:induction false} MergeTally(t: Table, r: Rollup, cutoff: int, events: seq<Event>)
    requires Placed(t) && RollupHolds(t, r, cutoff)
    ensures RollupHolds(InsertAll(t, events), Merge(r, Tally(events)), cutoff)
  {
    hide Placed;
    forall key: RollupKey | cutoff <= key.minute
      ensures Get(Merge(r, Tally(events)), key) == CountRows(InsertAll(t, events), Under(key))
    {
      TallyCounts(events, key);
      InsertAllKeeps(t, events, Under(key));
    }
  }

  lemma MinuteBelow(t: int, cutoff: int)
    requires cutoff <= MinuteOf(t)
    ensures cutoff <= t
  {}

  lemma UnderDay(key: RollupKey, day: int, e: Event)
    requires day * DAY <= key.minute && Under(key)(e)
    ensures day <= DayOf(e.time)
  {
    MinuteBelow(e.time, day * DAY);
  }

  /** Removing partitions below the cutoff does not touch the counts that are promised. */
  lemma DropHolds(t: Table, r: Rollup, names: seq<int>, day: int, ddl: int -> bool)
    requires Placed(t) && RollupHolds(t, r, day * DAY)
    requires (forall i, j | 0 <= i < j < |names| :: names[i] != names[j]) && forall d | d in names :: HasDay(t.parts, d)
    ensures RollupHolds(DropDays(t, names, day, ddl).table, r, day * DAY)
  {
    hide Placed;
    hide HasDay;
    hide CountRows;
    hide DropDays;
    hide Under;
    hide DayOf;
    forall key: RollupKey | day * DAY <= key.minute
      ensures Get(r, key) == CountRows(DropDays(t, names, day, ddl).table, Under(key))
    {
      forall e: Event | Under(key)(e)
        ensures day <= DayOf(e.time)
      {
        UnderDay(key, day, e);
      }
      DropDaysKeeps(t, names, day, ddl, Under(key));
    }
  }

  lemma EnsureHolds(t: Table, r: Rollup, cutoff: int, today: int, ddl: int -> bool)
    requires Placed(t) && t.hasMax && RollupHolds(t, r, cutoff)
    ensures RollupHolds(Ensure(t, today, ddl).table, r, cutoff)
  {
    hide Placed;
    hide HasDay;
    hide Ensure;
    forall key: RollupKey | cutoff <= key.minute
      ensures Get(r, key) == CountRows(Ensure(t, today, ddl).table, Under(key))
    {
      EnsureKeeps(t, today, ddl, Under(key));
    }
  }

  /** The entries a delete statement selects. */
  function Expired<K, V>(m: map<K, V>, stale: (K, V) -> bool): set<K> {
    set k | k in m && stale(k, m[k])
  }

  function MinuteBefore(cutoff: int): (RollupKey, nat) -> bool {
    (key: RollupKey, n: nat) => key.minute < cutoff
  }

  lemma LeftSize<K, V>(m: map<K, V>, removed: set<K>)
    requires removed <= m.Keys
    ensures |m - removed| == |m| - |removed|
  {
    assert (m - removed).Keys == m.Keys - removed;
  }

  type InstanceKey = (string, string, string)

  function SeenBefore(cutoff: int): (InstanceKey, M.Instance) -> bool {
    (key: InstanceKey, i: M.Instance) => i.lastSeen < cutoff
  }

  lemma NoneExpired<K, V>(m: map<K, V>, stale: (K, V) -> bool)
    requires Expired(m, stale) == {}
    ensures forall k | k in m :: !stale(k, m[k])
  {
    forall k | k in m
      ensures !stale(k, m[k])
    {
      assert k !in Expired(m, stale);
    }
  }

  /** No count before the cutoff is left, or as many are gone as the rounds allow. */
  ghost predicate RollupPruned(before: Rollup, after: Rollup, cutoff: int) {
    (forall key | key in after :: cutoff <= key.minute) || |before| - |after| == DELETE_ROUNDS * DELETE_LIMIT
  }

  /** No instance last seen before the cutoff is left, or as many are gone as the rounds allow. */
  ghost predicate InstancesPruned(before: map<InstanceKey, M.Instance>, after: map<InstanceKey, M.Instance>,
                                  cutoff: int) {
    (forall k | k in after :: cutoff <= after[k].lastSeen) || |before| - |after| == DELETE_ROUNDS * INSTANCE_LIMIT
  }

  /** The counts from the cutoff on are the same. */
  ghost predicate RollupKept(before: Rollup, after: Rollup, cutoff: int) {
    forall key: RollupKey | cutoff <= key.minute :: Get(after, key) == Get(before, key)
  }

  /** The instances seen since the cutoff are there, and those that are there are unchanged. */
  ghost predicate InstancesKept(before: map<InstanceKey, M.Instance>, after: map<InstanceKey, M.Instance>,
                                cutoff: int) {
    && after.Keys <= before.Keys
    && (forall k | k in after :: after[k] == before[k])
    && forall k | k in before && cutoff <= before[k].lastSeen :: k in after
  }

  lemma KeptItself(rollup: Rollup, instances: map<InstanceKey, M.Instance>, cutoff: int)
    ensures RollupKept(rollup, rollup, cutoff) && InstancesKept(instances, instances, cutoff)
  {}

  lemma RollupLeft(before: Rollup, after: Rollup, removed: set<RollupKey>, ok: bool, cutoff: int)
    requires Deleted(before, MinuteBefore(cutoff), DELETE_LIMIT, ok, after, removed)
    ensures RollupKept(before, after, cutoff) && (ok ==> RollupPruned(before, after, cutoff))
  {
    LeftSize(before, removed);
    if ok && Expired(after, MinuteBefore(cutoff)) == {} {
      NoneExpired(after, MinuteBefore(cutoff));
    }
  }

  lemma InstancesLeft(before: map<InstanceKey, M.Instance>, after: map<InstanceKey, M.Instance>,
                      removed: set<InstanceKey>, ok: bool, cutoff: int)
    requires Deleted(before, SeenBefore(cutoff), INSTANCE_LIMIT, ok, after, removed)
    ensures InstancesKept(before, after, cutoff) && (ok ==> InstancesPruned(before, after, cutoff))
  {
    LeftSize(before, removed);
    if ok && Expired(after, SeenBefore(cutoff)) == {} {
      NoneExpired(after, SeenBefore(cutoff));
    }
  }

  lemma {:induction false} SubsetOfSize<T>(s: set<T>, n: nat) returns (sub: set<T>)
    requires n <= |s|
    ensures sub <= s && |sub| == n
    decreases |s|
  {
    if |s| == n {
      sub := s;
    } else {
      var x :| x in s;
      sub := SubsetOfSize(s - {x}, n);
    }
  }

  /** Some delete fails. */
  ghost predicate Fails(fails: int -> bool) {
    exists round :: fails(round)
  }

  /** Some statement is not executed. */
  ghost predicate Refuses(ddl: int -> bool) {
    exists day :: !ddl(day)
  }

  /** Only expired entries are gone, and after a pass without error all of them, or as many as its
      rounds allow. */
  ghost predicate Deleted<K(!new), V>(m: map<K, V>, stale: (K, V) -> bool, limit: nat, ok: bool, left: map<K, V>,
                                      removed: set<K>) {
    && removed <= Expired(m, stale) && left == m - removed
    && (ok ==> Expired(left, stale) == {} || |removed| == DELETE_ROUNDS * limit)
  }

  /** `deleteBatches`: bounded rounds of bounded deletes, each of any entries the condition
      selects, that may stop on an error. */
  method DeleteBatches<K(!new), V>(m: map<K, V>, stale: (K, V) -> bool, limit: nat, fails: int -> bool)
    returns (ok: bool, left: map<K, V>, ghost removed: set<K>)
    requires limit > 0
    ensures Deleted(m, stale, limit, ok, left, removed)
    ensures !ok ==> Fails(fails)
  {
    removed, left := {}, m;
    for round := 0 to DELETE_ROUNDS
      invariant left == m - removed && removed <= Expired(m, stale)
      invariant |removed| == round * limit || Expired(left, stale) == {}
    {
      if fails(round) {
        return false, left, removed;
      }
      var expired := Expired(left, stale);
      var some := if |expired| > limit then limit else |expired|;
      ghost var possible := SubsetOfSize(expired, some);
      var victims: set<K> :| victims <= expired && |victims| == some;
      if victims == {} {
        return true, left, removed;
      }
      assert removed !! victims;
      removed := removed + victims;
      left := left - victims;
      if |expired| <= limit {
        WholeSubset(victims, expired);
      }
    }
    ok := true;
  }

  /** The first loop of `ensurePartitions`. */
  method FindLatest(existing: seq<Part>) returns (latest: int)
    ensures latest == LatestDay(existing)
  {
    hide UpToDay;
    latest := 0;
    for k := 0 to |existing|
      invariant latest == LatestDay(existing[..k])
    {
      assert existing[..k + 1][..k] == existing[..k];
      if existing[k].day > latest {
        latest := existing[k].day;
      }
    }
    assert existing[..|existing|] == existing;
  }

  lemma UpToIffHas(parts: seq<Part>, day: int)
    ensures UpToDay(parts, day) <==> forall d | HasDay(parts, d) :: d <= day
  {
    if forall d | HasDay(parts, d) :: d <= day {
      forall i | 0 <= i < |parts|
        ensures parts[i].day <= day
      {
        assert HasDay(parts, parts[i].day);
      }
    }
  }

  lemma EnsureUpTo(t: Table, today: int, ddl: int -> bool, day: int)
    requires Placed(t) && t.hasMax && UpToDay(t.parts, day) && today + 1 <= day
    ensures UpToDay(Ensure(t, today, ddl).table.parts, day)
  {
    hide Placed;
    hide HasDay;
    hide Ensure;
    EnsureKeeps(t, today, ddl, (e: Event) => false);
    UpToIffHas(t.parts, day);
    UpToIffHas(Ensure(t, today, ddl).table.parts, day);
  }

  lemma DropUpTo(t: Table, names: seq<int>, cutoff: int, ddl: int -> bool, day: int)
    requires Placed(t) && Listing(names, t.parts) && UpToDay(t.parts, day)
    ensures UpToDay(DropDays(t, names, cutoff, ddl).table.parts, day)
  {
    hide Placed;
    hide HasDay;
    hide DropDays;
    DropDaysKeeps(t, names, cutoff, ddl, (e: Event) => false);
    UpToIffHas(t.parts, day);
    UpToIffHas(DropDays(t, names, cutoff, ddl).table.parts, day);
  }

  lemma {:induction false} InsertUpTo(t: Table, events: seq<Event>, day: int)
    requires UpToDay(t.parts, day)
    ensures UpToDay(InsertAll(t, events).parts, day)
  {
    if events != [] {
      InsertUpTo(t, events[..|events| - 1], day);
    }
  }

  lemma HoldsLater(t: Table, r: Rollup, cutoff: int, later: int)
    requires RollupHolds(t, r, cutoff) && cutoff <= later
    ensures RollupHolds(t, r, later)
  {
    hide CountRows;
  }

  lemma PruneHolds(t: Table, r: Rollup, cutoff: int, removed: set<RollupKey>)
    requires RollupHolds(t, r, cutoff) && removed <= Expired(r, MinuteBefore(cutoff))
    ensures RollupHolds(t, r - removed, cutoff)
  {
    hide CountRows;
  }

  /** One table holds the rows of another and some more. */
  ghost predicate Gained(before: Table, after: Table, events: seq<Event>) {
    forall p :: CountRows(after, p) == CountRows(before, p) + Count(events, p)
  }

  lemma GainedNothing(t: Table)
    ensures Gained(t, t, [])
  {}

  lemma GainedChunk(before: Table, t: Table, events: seq<Event>, chunk: seq<Event>)
    requires Placed(t) && Gained(before, t, events)
    ensures Gained(before, InsertAll(t, chunk), events + chunk) && InsertAll(t, chunk).hasMax == t.hasMax
  {
    hide Placed;
    hide CountRows;
    forall p: Event -> bool
      ensures CountRows(InsertAll(t, chunk), p) == CountRows(before, p) + Count(events + chunk, p)
    {
      InsertAllKeeps(t, chunk, p);
      CountConcat(events, chunk, p);
    }
    InsertAllKeeps(t, chunk, (e: Event) => true);
  }

  /** Both tables have the same rows from a day on. */
  ghost predicate SameFrom(before: Table, after: Table, day: int) {
    forall p: Event -> bool | forall e | p(e) :: day <= DayOf(e.time) :: CountRows(after, p) == CountRows(before, p)
  }

  lemma {:induction false} UpsertAllConcat(instances: map<InstanceKey, M.Instance>, a: seq<M.Instance>,
                                           b: seq<M.Instance>)
    ensures M.UpsertAll(instances, a + b) == M.UpsertAll(M.UpsertAll(instances, a), b)
  {
    if b == [] {
      assert a + b == a;
    } else {
      UpsertAllConcat(instances, a, b[..|b| - 1]);
      assert (a + b)[..|a + b| - 1] == a + b[..|b| - 1];
    }
  }

  /** Rows are in their partitions, no partition is for a day past the day after the latest run,
      and the rollup counts the rows that have not expired. */
  ghost predicate Consistent(t: Table, r: Rollup, lastDay: int, retention: int) {
    Placed(t) && UpToDay(t.parts, lastDay + 1) && RollupHolds(t, r, (lastDay - retention) * DAY)
  }

  lemma StoreConsistent(t: Table, r: Rollup, lastDay: int, retention: int, events: seq<Event>)
    requires Consistent(t, r, lastDay, retention)
    ensures Consistent(InsertAll(t, events), Merge(r, Tally(events)), lastDay, retention)
  {
    MergeTally(t, r, (lastDay - retention) * DAY, events);
    InsertUpTo(t, events, lastDay + 1);
    InsertAllKeeps(t, events, (e: Event) => true);
    hide Placed;
    hide RollupHolds;
    hide UpToDay;
  }

  lemma EnsureConsistent(t: Table, r: Rollup, today: int, retention: int, ddl: int -> bool)
    requires Consistent(t, r, today, retention) && t.hasMax
    ensures Consistent(Ensure(t, today, ddl).table, r, today, retention)
  {
    EnsureHolds(t, r, (today - retention) * DAY, today, ddl);
    EnsureUpTo(t, today, ddl, today + 1);
    EnsureKeeps(t, today, ddl, (e: Event) => true);
    hide Placed;
    hide RollupHolds;
    hide UpToDay;
    hide Ensure;
  }

  lemma DropConsistent(t: Table, r: Rollup, today: int, retention: int, names: seq<int>, ddl: int -> bool)
    requires Consistent(t, r, today, retention) && Listing(names, t.parts)
    ensures Consistent(DropDays(t, names, today - retention, ddl).table, r, today, retention)
  {
    DropHolds(t, r, names, today - retention, ddl);
    DropUpTo(t, names, today - retention, ddl, today + 1);
    DropDaysKeeps(t, names, today - retention, ddl, (e: Event) => false);
    hide Placed;
    hide RollupHolds;
    hide UpToDay;
    hide DropDays;
  }

  lemma LaterConsistent(t: Table, r: Rollup, lastDay: int, today: int, retention: int)
    requires Consistent(t, r, lastDay, retention) && lastDay <= today
    ensures Consistent(t, r, today, retention)
  {
    hide Placed;
    HoldsLater(t, r, (lastDay - retention) * DAY, (today - retention) * DAY);
    hide RollupHolds;
  }

  lemma PruneConsistent(t: Table, r: Rollup, today: int, retention: int, cutoff: int, left: Rollup,
                        removed: set<RollupKey>, ok: bool)
    requires Consistent(t, r, today, retention) && cutoff == (today - retention) * DAY
    requires Deleted(r, MinuteBefore(cutoff), DELETE_LIMIT, ok, left, removed)
    ensures Consistent(t, left, today, retention)
    ensures RollupKept(r, left, cutoff) && (ok ==> RollupPruned(r, left, cutoff))
  {
    hide Placed;
    PruneHolds(t, r, cutoff, removed);
    RollupLeft(r, left, removed, ok, cutoff);
    hide RollupHolds;
    hide RollupKept;
    hide RollupPruned;
  }

  lemma PlacedOf(t: Table, r: Rollup, lastDay: int, retention: int)
    requires Consistent(t, r, lastDay, retention)
    ensures Placed(t) && UpToDay(t.parts, lastDay + 1) && RollupHolds(t, r, (lastDay - retention) * DAY)
  {}

  /** The named lock that serialises maintenance. */
  datatype Lock = Taken | Busy | Unreachable

  class Storage {
    const retention: int
    var table: Table
    var rollup: Rollup
    var instances: map<InstanceKey, M.Instance>
    /** The day of the latest maintenance run. */
    ghost var lastDay: nat

    /** Where the latest maintenance run cut. */
    ghost function Cutoff(): int
      reads this`lastDay
    {
      (lastDay - retention) * DAY
    }

    ghost predicate Valid()
      reads this
    {
      Consistent(table, rollup, lastDay, retention)
    }

    constructor (retention: int)
      ensures Valid() && table == Table([], true, []) && rollup == map[] && instances == map[]
      ensures this.retention == retention && lastDay == 0
    {
      this.retention := retention;
      table := Table([], true, []);
      rollup, instances := map[], map[];
      lastDay := 0;
    }

    /** One transaction: the rows and their counts go in together, or not at all. */
    method StoreChunk(events: seq<Event>, outcome: Outcome) returns (ok: bool)
      requires Valid()
      modifies this`table, this`rollup
      ensures Valid()
      ensures ok <==> outcome == Applied(true)
      ensures outcome.RolledBack? ==> table == old(table) && rollup == old(rollup)
      ensures outcome.Applied? ==>
                table == InsertAll(old(table), events) && rollup == Merge(old(rollup), Tally(events))
    {
      hide Consistent;
      var counts: Rollup := map[];
      for k := 0 to |events|
        invariant counts == Tally(events[..k])
      {
        assert events[..k + 1][..k] == events[..k];
        counts := counts[KeyOf(events[k]) := Get(counts, KeyOf(events[k])) + 1];
      }
      assert events[..|events|] == events;
      hide Tally;
      hide Merge;
      hide InsertAll;
      ok := outcome == Applied(true);
      if outcome.Applied? {
        StoreConsistent(table, rollup, lastDay, retention, events);
        table := InsertAll(table, events);
        rollup := Merge(rollup, counts);
      }
    }

    /** A batch is stored chunk by chunk: whatever fails, a run of whole chunks has gone in, and
        success means all of them. */
    method StoreEvents(events: seq<Event>, outcomes: int -> Outcome) returns (ok: bool, ghost stored: int)
      requires Valid()
      modifies this`table, this`rollup
      ensures Valid() && ChunkBoundary(stored, |events|, INSERT_CHUNK) && (ok ==> stored == |events|)
      ensures !ok ==> StoppedAt(stored, |events|, INSERT_CHUNK, outcomes)
      ensures table.hasMax == old(table.hasMax) && Gained(old(table), table, events[..stored])
    {
      hide Consistent;
      hide StoppedAt;
      hide Gained;
      hide InsertAll;
      hide Tally;
      hide Merge;
      stored := 0;
      var start := 0;
      assert events[..0] == [];
      GainedNothing(table);
      while start < |events|
        invariant Valid() && start == stored && ChunkBoundary(start, |events|, INSERT_CHUNK)
        invariant table.hasMax == old(table.hasMax) && Gained(old(table), table, events[..start])
        decreases |events| - start
      {
        var end := if start + INSERT_CHUNK > |events| then |events| else start + INSERT_CHUNK;
        ghost var before := table;
        PlacedOf(table, rollup, lastDay, retention);
        hide Placed;
        hide UpToDay;
        hide RollupHolds;
        ok := StoreChunk(events[start..end], outcomes(start));
        if outcomes(start).Applied? {
          GainedChunk(old(table), before, events[..start], events[start..end]);
          assert events[..end] == events[..start] + events[start..end];
          stored := end;
        }
        if !ok {
          StopsAt(start, stored, |events|, INSERT_CHUNK, outcomes);
          return false, stored;
        }
        start := end;
      }
      assert events[..|events|] == events;
      ok := true;
    }

    /** `UpsertInstances`, chunk by chunk; a row that is there keeps the time it was first seen. */
    method UpsertInstances(more: seq<M.Instance>, outcomes: int -> Outcome) returns (ok: bool, ghost stored: int)
      requires Valid()
      modifies this`instances
      ensures Valid() && ChunkBoundary(stored, |more|, UPSERT_CHUNK) && (ok ==> stored == |more|)
      ensures !ok ==> StoppedAt(stored, |more|, UPSERT_CHUNK, outcomes)
      ensures instances == M.UpsertAll(old(instances), more[..stored])
    {
      hide Consistent;
      hide StoppedAt;
      hide M.UpsertAll;
      assert more[..0] == [];
      NothingUpserted(instances);
      stored := 0;
      var start := 0;
      while start < |more|
        invariant start == stored && ChunkBoundary(start, |more|, UPSERT_CHUNK)
        invariant instances == M.UpsertAll(old(instances), more[..start])
        decreases |more| - start
      {
        var end := if start + UPSERT_CHUNK > |more| then |more| else start + UPSERT_CHUNK;
        if outcomes(start).Applied? {
          UpsertAllConcat(old(instances), more[..start], more[start..end]);
          assert more[..start] + more[start..end] == more[..end];
          instances := M.UpsertAll(instances, more[start..end]);
          stored := end;
        }
        if outcomes(start) != Applied(true) {
          StopsAt(start, stored, |more|, UPSERT_CHUNK, outcomes);
          return false, stored;
        }
        start := end;
      }
      assert more[..|more|] == more;
      ok := true;
    }

    /** `ensurePartitions`; the listing of the partitions may fail. */
    method EnsurePartitions(today: int, listed: bool, ddl: int -> bool) returns (ok: bool, issued: seq<int>)
      requires Valid() && today == lastDay
      modifies this`table
      ensures Valid()
      ensures !listed || !old(table.hasMax) ==> !ok && table == old(table) && issued == []
      ensures listed && old(table.hasMax) ==> Altered(table, ok, issued) == Ensure(old(table), today, ddl)
      ensures !ok ==> !listed || !old(table.hasMax) || Refuses(ddl)
    {
      hide HasDay;
      issued := [];
      if !listed || !table.hasMax {
        return false, [];
      }
      EnsureConsistent(table, rollup, today, retention, ddl);
      assert Placed(table);
      EnsureKeeps(table, today, ddl, (e: Event) => true);
      hide Consistent;
      hide EnsureDays;
      hide LatestDay;
      hide UpToDay;
      var existing := table.parts;
      var latest := FindLatest(existing);
      ok, issued := AddMissing(existing, latest, [today - 1, today, today + 1], ddl);
    }

    /** The second loop of `ensurePartitions`. */
    method AddMissing(existing: seq<Part>, from: int, days: seq<int>, ddl: int -> bool)
      returns (ok: bool, issued: seq<int>)
      modifies this`table
      ensures Altered(table, ok, issued) == EnsureDays(old(table), existing, from, days, ddl)
    {
      hide HasDay;
      hide Reorganize;
      hide EnsureDays;
      issued := [];
      var latest := from;
      ghost var goal := EnsureDays(table, existing, latest, days, ddl);
      assert days[0..] == days;
      for k := 0 to |days|
        invariant Leads(goal, issued, EnsureDays(table, existing, latest, days[k..], ddl))
      {
        var day := days[k];
        assert days[k..][1..] == days[k + 1..] && days[k..][0] == day;
        EnsureUnfolds(table, existing, latest, days[k..], ddl);
        if !HasDay(existing, day) && day > latest {
          if !ddl(day) || Reorganize(table, day).None? {
            return false, issued + [day];
          }
          ghost var rest := EnsureDays(Reorganize(table, day).value, existing, day, days[k + 1..], ddl);
          assert issued + ([day] + rest.issued) == issued + [day] + rest.issued;
          issued := issued + [day];
          table := Reorganize(table, day).value;
          latest := day;
        }
      }
      EnsureUnfolds(table, existing, latest, days[|days|..], ddl);
      ok := true;
    }

    /** `dropExpiredPartitions`, whatever order the partitions are listed in; the listing may fail. */
    method DropExpiredPartitions(day: int, listing: Option<seq<int>>, ddl: int -> bool)
      returns (ok: bool, issued: seq<int>)
      requires Valid() && day == lastDay - retention && (listing.Some? ==> Listing(listing.value, table.parts))
      modifies this`table
      ensures Valid()
      ensures listing.None? ==> !ok && table == old(table) && issued == []
      ensures listing.Some? ==> Altered(table, ok, issued) == DropDays(old(table), listing.value, day, ddl)
      ensures !ok ==> listing.None? || Refuses(ddl)
    {
      if listing.None? {
        return false, [];
      }
      var names := listing.value;
      DropConsistent(table, rollup, lastDay, retention, names, ddl);
      PlacedOf(table, rollup, lastDay, retention);
      DropDaysKeeps(table, names, day, ddl, (e: Event) => false);
      hide Consistent;
      hide DropDays;
      ok, issued := DropListed(day, names, ddl);
    }

    method DropListed(day: int, names: seq<int>, ddl: int -> bool) returns (ok: bool, issued: seq<int>)
      modifies this`table
      ensures Altered(table, ok, issued) == DropDays(old(table), names, day, ddl)
    {
      hide HasDay;
      issued := [];
      ghost var goal := DropDays(table, names, day, ddl);
      for k := 0 to |names|
        invariant var rest := DropDays(table, names[k..], day, ddl);
                  goal.table == rest.table && goal.ok == rest.ok && goal.issued == issued + rest.issued
      {
        var name := names[k];
        assert names[k..][1..] == names[k + 1..] && names[k..][0] == name;
        if name + 1 <= day {
          issued := issued + [name];
          if !ddl(name) || !HasDay(table.parts, name) {
            return false, issued;
          }
          table := Drop(table, PartOf(table.parts, name));
        }
      }
      ok := true;
    }

    /** `Maintain`, for one day. Later runs never see an earlier day. */
    method Maintain(lock: Lock, today: nat, listed: bool, listing: Option<seq<int>>, ddl: int -> bool,
                    rollupFails: int -> bool, instancesFail: int -> bool)
      returns (ok: bool)
      requires Valid() && lastDay <= today
      requires listing.Some? ==> Listing(listing.value, AfterEnsure(table, today, listed, ddl).parts)
      modifies this`table, this`rollup, this`instances, this`lastDay
      ensures Valid()
      ensures !lock.Taken? ==>
                && ok == lock.Busy? && table == old(table) && rollup == old(rollup) && instances == old(instances)
                && lastDay == old(lastDay)
      ensures lock.Taken? ==>
                && lastDay == today
                && table == AfterDrop(AfterEnsure(old(table), today, listed, ddl), listing, today - retention, ddl)
      ensures lock.Taken? && ok ==> listed && old(table.hasMax) && listing.Some?
      ensures lock.Taken? && ok ==> RollupPruned(old(rollup), rollup, Cutoff())
      ensures lock.Taken? && ok ==> InstancesPruned(old(instances), instances, Cutoff())
      ensures lock.Taken? && !ok ==>
                || !listed || !old(table.hasMax) || listing.None? || Refuses(ddl)
                || Fails(rollupFails) || Fails(instancesFail)
      ensures RollupKept(old(rollup), rollup, Cutoff())
      ensures SameFrom(old(table), table, lastDay - retention)
      ensures InstancesKept(old(instances), instances, Cutoff())
    {
      if !lock.Taken? {
        SameFromItself(table, lastDay - retention);
        KeptItself(rollup, instances, Cutoff());
        return lock.Busy?;
      }
      hide SameFrom;
      hide Consistent;
      hide Ensure;
      hide DropDays;
      hide CountRows;
      hide Listing;
      hide Expired;
      hide RollupPruned;
      hide InstancesPruned;
      hide RollupKept;
      hide InstancesKept;
      hide Fails;
      hide Refuses;
      ghost var goal := AfterDrop(AfterEnsure(table, today, listed, ddl), listing, today - retention, ddl);
      assert SameFrom(table, goal, today - retention) by {
        PlacedOf(table, rollup, lastDay, retention);
        MaintainKeepsAll(table, today, listed, listing, today - retention, ddl);
      }
      LaterConsistent(table, rollup, lastDay, today, retention);
      lastDay := today;
      var ensured, _ := EnsurePartitions(today, listed, ddl);
      var dropped, _ := DropExpiredPartitions(today - retention, listing, ddl);
      assert table == goal;
      var pruned := PruneRollup(today, rollupFails);
      var forgotten := PruneInstances(today, instancesFail);
      ok := ensured && dropped && pruned && forgotten;
    }

    method PruneRollup(today: nat, fails: int -> bool) returns (ok: bool)
      requires Valid() && today == lastDay
      modifies this`rollup
      ensures Valid()
      ensures RollupKept(old(rollup), rollup, Cutoff())
      ensures ok ==> RollupPruned(old(rollup), rollup, Cutoff())
      ensures !ok ==> Fails(fails)
    {
      hide Consistent;
      hide RollupKept;
      hide RollupPruned;
      hide Deleted;
      hide Fails;
      var cutoff := (today - retention) * DAY;
      assert cutoff == Cutoff();
      var left: Rollup;
      ghost var removed;
      ok, left, removed := DeleteBatches(rollup, MinuteBefore(cutoff), DELETE_LIMIT, fails);
      PruneConsistent(table, rollup, lastDay, retention, cutoff, left, removed, ok);
      rollup := left;
    }

    method PruneInstances(today: nat, fails: int -> bool) returns (ok: bool)
      requires Valid() && today == lastDay
      modifies this`instances
      ensures Valid()
      ensures InstancesKept(old(instances), instances, Cutoff())
      ensures ok ==> InstancesPruned(old(instances), instances, Cutoff())
      ensures !ok ==> Fails(fails)
    {
      hide Consistent;
      hide InstancesKept;
      hide InstancesPruned;
      hide Deleted;
      hide Fails;
      var cutoff := (today - retention) * DAY;
      assert cutoff == Cutoff();
      var left;
      ghost var removed;
      ok, left, removed := DeleteBatches(instances, SeenBefore(cutoff), INSTANCE_LIMIT, fails);
      InstancesLeft(instances, left, removed, ok, cutoff);
      instances := left;
    }

    /** Once a run has gone through on a day, another on the same day issues no statement exactly
        when the retention is at least minus one day: the tables the store can reach have no
        partition past the day after the latest run. */
    lemma SecondRunIssuesNothing(today: nat, names: seq<int>, again: seq<int>)
      requires Valid() && table.hasMax && lastDay <= today
      requires Listing(names, Ensure(table, today, Always).table.parts)
      requires Listing(again, Ensure(Maintained(table, today, retention, names).table, today, Always).table.parts)
      ensures Maintained(Maintained(table, today, retention, names).table, today, retention, again).issued == []
         <==> -1 <= retention
    {
      PlacedOf(table, rollup, lastDay, retention);
      UpToLater(table.parts, lastDay + 1, today + 1);
      SecondRunIdle(table, today, retention, names, again);
    }
  }

  function AfterEnsure(t: Table, today: int, listed: bool, ddl: int -> bool): Table {
    if listed && t.hasMax then Ensure(t, today, ddl).table else t
  }

  function AfterDrop(t: Table, listing: Option<seq<int>>, cutoff: int, ddl: int -> bool): Table {
    if listing.Some? then DropDays(t, listing.value, cutoff, ddl).table else t
  }

  lemma UpToLater(parts: seq<Part>, day: int, later: int)
    requires UpToDay(parts, day) && day <= later
    ensures UpToDay(parts, later)
  {}

  lemma MaintainKeeps(t: Table, today: int, listed: bool, listing: Option<seq<int>>, cutoff: int, ddl: int -> bool,
                      p: Event -> bool)
    requires Placed(t) && forall e | p(e) :: cutoff <= DayOf(e.time)
    requires listing.Some? ==> Listing(listing.value, AfterEnsure(t, today, listed, ddl).parts)
    ensures CountRows(AfterDrop(AfterEnsure(t, today, listed, ddl), listing, cutoff, ddl), p) == CountRows(t, p)
  {
    hide Placed;
    hide HasDay;
    hide Ensure;
    hide DropDays;
    hide CountRows;
    if listed && t.hasMax {
      EnsureKeeps(t, today, ddl, p);
    }
    if listing.Some? {
      DropDaysKeeps(AfterEnsure(t, today, listed, ddl), listing.value, cutoff, ddl, p);
    }
  }

  lemma SameFromItself(t: Table, day: int)
    ensures SameFrom(t, t, day)
  {}

  lemma MaintainKeepsAll(t: Table, today: int, listed: bool, listing: Option<seq<int>>, cutoff: int, ddl: int -> bool)
    requires Placed(t) && (listing.Some? ==> Listing(listing.value, AfterEnsure(t, today, listed, ddl).parts))
    ensures SameFrom(t, AfterDrop(AfterEnsure(t, today, listed, ddl), listing, cutoff, ddl), cutoff)
  {
    hide Placed;
    hide CountRows;
    hide Listing;
    hide AfterDrop;
    hide AfterEnsure;
    forall p: Event -> bool | forall e | p(e) :: cutoff <= DayOf(e.time)
      ensures CountRows(AfterDrop(AfterEnsure(t, today, listed, ddl), listing, cutoff, ddl), p) == CountRows(t, p)
    {
      MaintainKeeps(t, today, listed, listing, cutoff, ddl, p);
    }
  }

  lemma NothingUpserted(instances: map<InstanceKey, M.Instance>)
    ensures M.UpsertAll(instances, []) == instances
  {}

  /** What a loop still has to do, after what it has issued, is the whole result. */
  ghost predicate Leads(goal: Altered, issued: seq<int>, rest: Altered) {
    goal.table == rest.table && goal.ok == rest.ok && goal.issued == issued + rest.issued
  }

  lemma EnsureUnfolds(t: Table, existing: seq<Part>, latest: int, days: seq<int>, ddl: int -> bool)
    ensures EnsureDays(t, existing, latest, days, ddl) ==
            if days == [] then Altered(t, true, [])
            else if HasDay(existing, days[0]) || days[0] <= latest then EnsureDays(t, existing, latest, days[1..], ddl)
            else if !ddl(days[0]) || Reorganize(t, days[0]).None? then Altered(t, false, [days[0]])
            else
              var r := EnsureDays(Reorganize(t, days[0]).value, existing, days[0], days[1..], ddl);
              r.(issued := [days[0]] + r.issued)
  {
    hide HasDay;
    hide Reorganize;
  }

  lemma WholeSubset<T>(a: set<T>, b: set<T>)
    requires a <= b && |a| == |b|
    ensures a == b
  {
    assert |b - a| == |b| - |a|;
  }
}
