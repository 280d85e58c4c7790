/** The event table of the database backend as state (storage/mysql/storage.go): partitions, the
    statements that change them, and what these do to the rows. */
module MysqlTables {
  import opened Wrappers
  import opened Timeline
  import opened Counting

  const INSERT_CHUNK := 500
  const DELETE_ROUNDS := 20
  const DELETE_LIMIT := 50000
  const UPSERT_CHUNK := 200
  const INSTANCE_LIMIT := 10000

  function DayOf(t: int): int { t / DAY }

  // ---- partitions ------------------------------------------------------------

  /** The partition named after a day: it takes rows up to that day included. */
  datatype Part = Part(day: int, rows: seq<Event>)

  /** events_v2: day partitions, and the rows of the catch-all p_max when there is one. */
  datatype Table = Table(parts: seq<Part>, hasMax: bool, rest: seq<Event>)

  /** How many rows of a list of partitions satisfy a condition. */
  function CountParts(parts: seq<Part>, p: Event -> bool): nat {
    if parts == [] then 0 else CountParts(parts[..|parts| - 1], p) + Count(parts[|parts| - 1].rows, p)
  }

  function CountRows(t: Table, p: Event -> bool): nat {
    CountParts(t.parts, p) + Count(t.rest, p)
  }

  function Flatten(parts: seq<Part>): seq<Event> {
    if parts == [] then [] else Flatten(parts[..|parts| - 1]) + parts[|parts| - 1].rows
  }

  /** All rows, partition by partition. */
  function Rows(t: Table): seq<Event> {
    Flatten(t.parts) + t.rest
  }

  lemma {:induction false} FlattenCounts(parts: seq<Part>, p: Event -> bool)
    ensures Count(Flatten(parts), p) == CountParts(parts, p)
  {
    if parts != [] {
      FlattenCounts(parts[..|parts| - 1], p);
      CountConcat(Flatten(parts[..|parts| - 1]), parts[|parts| - 1].rows, p);
    }
  }

  lemma RowsCount(t: Table, p: Event -> bool)
    ensures Count(Rows(t), p) == CountRows(t, p)
  {
    FlattenCounts(t.parts, p);
    CountConcat(Flatten(t.parts), t.rest, p);
  }

  /** The bound a row must exceed to be in the partition at a position. */
  predicate AboveBound(parts: seq<Part>, i: nat, day: int)
    requires i <= |parts|
  {
    i > 0 ==> parts[i - 1].day < day
  }

  ghost predicate Increasing(parts: seq<Part>) {
    forall i, j | 0 <= i < j < |parts| :: parts[i].day < parts[j].day
  }

  ghost predicate RowsInPlace(parts: seq<Part>) {
    forall i: nat, e | i < |parts| && e in parts[i].rows ::
      AboveBound(parts, i, DayOf(e.time)) && DayOf(e.time) <= parts[i].day
  }

  ghost predicate RestInPlace(t: Table) {
    forall e | e in t.rest :: AboveBound(t.parts, |t.parts|, DayOf(e.time))
  }

  ghost predicate DaysPositive(parts: seq<Part>) {
    forall i | 0 <= i < |parts| :: 0 < parts[i].day
  }

  /** Bounds strictly increase, and every row is in the lowest partition that bounds it. */
  ghost predicate Placed(t: Table) {
    Increasing(t.parts) && DaysPositive(t.parts) && RowsInPlace(t.parts) && RestInPlace(t)
  }

  /** The lowest partition that takes a day, or the number of partitions: p_max. */
  function Slot(parts: seq<Part>, day: int): (i: nat)
    ensures i <= |parts| && (i < |parts| ==> day <= parts[i].day)
    ensures forall k | 0 <= k < i :: parts[k].day < day
  {
    if parts == [] || day <= parts[0].day then 0 else Slot(parts[1..], day) + 1
  }

  /** INSERT of one row. */
  function Insert(t: Table, e: Event): Table {
    var i := Slot(t.parts, DayOf(e.time));
    if i < |t.parts| then t.(parts := t.parts[i := Part(t.parts[i].day, t.parts[i].rows + [e])])
    else t.(rest := t.rest + [e])
  }

  function InsertAll(t: Table, events: seq<Event>): Table {
    if events == [] then t else Insert(InsertAll(t, events[..|events| - 1]), events[|events| - 1])
  }

  /** The rows on one side of a bound. */
  function Side(rows: seq<Event>, day: int, above: bool): seq<Event> {
    if rows == [] then []
    else
      var last := rows[|rows| - 1];
      Side(rows[..|rows| - 1], day, above) + if (day < DayOf(last.time)) == above then [last] else []
  }

  /** REORGANIZE PARTITION p_max: the database refuses a bound that is not above all others. */
  function Reorganize(t: Table, day: int): Option<Table> {
    if t.hasMax && AboveBound(t.parts, |t.parts|, day)
    then Some(Table(t.parts + [Part(day, Side(t.rest, day, false))], true, Side(t.rest, day, true)))
    else None
  }

  /** DROP PARTITION of the partition at a position. */
  function Drop(t: Table, i: nat): Table
    requires i < |t.parts|
  {
    t.(parts := t.parts[..i] + t.parts[i + 1..])
  }

  lemma {:induction false} CountPartsUpdate(parts: seq<Part>, i: nat, part: Part, p: Event -> bool)
    requires i < |parts|
    ensures CountParts(parts[i := part], p) == CountParts(parts, p) - Count(parts[i].rows, p) + Count(part.rows, p)
  {
    var init := parts[..|parts| - 1];
    if i < |init| {
      CountPartsUpdate(init, i, part, p);
      assert parts[i := part][..|init|] == init[i := part];
    } else {
      assert parts[i := part][..|init|] == init;
    }
  }

  lemma {:induction false} CountPartsRemove(parts: seq<Part>, i: nat, p: Event -> bool)
    requires i < |parts|
    ensures CountParts(parts[..i] + parts[i + 1..], p) == CountParts(parts, p) - Count(parts[i].rows, p)
  {
    var init := parts[..|parts| - 1];
    var less := parts[..i] + parts[i + 1..];
    if i < |init| {
      CountPartsRemove(init, i, p);
      assert less[..|less| - 1] == init[..i] + init[i + 1..];
    } else {
      assert less == init;
    }
  }

  lemma CountOneMore(rows: seq<Event>, e: Event, p: Event -> bool)
    ensures Count(rows + [e], p) == Count(rows, p) + if p(e) then 1 else 0
  {
    assert (rows + [e])[..|rows|] == rows;
  }

  lemma InsertPlaced(t: Table, e: Event)
    requires Placed(t)
    ensures Placed(Insert(t, e)) && Insert(t, e).hasMax == t.hasMax
  {
    var i, r := Slot(t.parts, DayOf(e.time)), Insert(t, e);
    assert forall k | 0 <= k < |t.parts| :: r.parts[k].day == t.parts[k].day;
    forall k: nat, x | k < |r.parts| && x in r.parts[k].rows
      ensures AboveBound(r.parts, k, DayOf(x.time)) && DayOf(x.time) <= r.parts[k].day
    {
      assert x in t.parts[k].rows || (k == i && x == e);
    }
  }

  /** An insert keeps every row in its place and adds one row. */
  lemma InsertKeeps(t: Table, e: Event, p: Event -> bool)
    requires Placed(t)
    ensures Placed(Insert(t, e)) && Insert(t, e).hasMax == t.hasMax
    ensures CountRows(Insert(t, e), p) == CountRows(t, p) + if p(e) then 1 else 0
  {
    InsertPlaced(t, e);
    hide Placed;
    var i := Slot(t.parts, DayOf(e.time));
    if i < |t.parts| {
      CountOneMore(t.parts[i].rows, e, p);
      CountPartsUpdate(t.parts, i, Part(t.parts[i].day, t.parts[i].rows + [e]), p);
    } else {
      CountOneMore(t.rest, e, p);
    }
  }

  lemma {:induction false} InsertAllKeeps(t: Table, events: seq<Event>, p: Event -> bool)
    requires Placed(t)
    ensures Placed(InsertAll(t, events)) && InsertAll(t, events).hasMax == t.hasMax
    ensures CountRows(InsertAll(t, events), p) == CountRows(t, p) + Count(events, p)
  {
    hide Placed;
    hide Insert;
    hide CountRows;
    if events != [] {
      InsertAllKeeps(t, events[..|events| - 1], p);
      InsertKeeps(InsertAll(t, events[..|events| - 1]), events[|events| - 1], p);
    }
  }

  lemma {:induction false} SideRows(rows: seq<Event>, day: int, above: bool)
    ensures forall e | e in Side(rows, day, above) :: e in rows && (day < DayOf(e.time)) == above
  {
    if rows != [] {
      SideRows(rows[..|rows| - 1], day, above);
    }
  }

  lemma {:induction false} SidesCount(rows: seq<Event>, day: int, p: Event -> bool)
    ensures Count(Side(rows, day, false), p) + Count(Side(rows, day, true), p) == Count(rows, p)
  {
    if rows != [] {
      var init, last := rows[..|rows| - 1], rows[|rows| - 1];
      SidesCount(init, day, p);
      var above := day < DayOf(last.time);
      CountOneMore(Side(init, day, above), last, p);
      assert Side(init, day, !above) + [] == Side(init, day, !above);
    }
  }

  lemma ReorganizePlaced(t: Table, day: int)
    requires Placed(t) && Reorganize(t, day).Some? && 0 < day
    ensures Placed(Reorganize(t, day).value)
  {
    var r := Reorganize(t, day).value;
    SideRows(t.rest, day, false);
    SideRows(t.rest, day, true);
    forall k: nat, x | k < |r.parts| && x in r.parts[k].rows
      ensures AboveBound(r.parts, k, DayOf(x.time)) && DayOf(x.time) <= r.parts[k].day
    {
      if k < |t.parts| {
        assert x in t.parts[k].rows;
      } else {
        assert x in t.rest;
      }
    }
  }

  /** Reorganising keeps every row, each now in its place under the new bounds. */
  lemma ReorganizeKeeps(t: Table, day: int, p: Event -> bool)
    requires Placed(t) && Reorganize(t, day).Some? && 0 < day
    ensures Placed(Reorganize(t, day).value) && CountRows(Reorganize(t, day).value, p) == CountRows(t, p)
  {
    ReorganizePlaced(t, day);
    hide Placed;
    SidesCount(t.rest, day, p);
    assert Reorganize(t, day).value.parts[..|t.parts|] == t.parts;
  }

  lemma DropPlaced(t: Table, i: nat)
    requires Placed(t) && i < |t.parts|
    ensures Placed(Drop(t, i))
  {
    var r := Drop(t, i);
    assert forall k | 0 <= k < |r.parts| :: r.parts[k] == t.parts[if k < i then k else k + 1];
    forall k: nat, x | k < |r.parts| && x in r.parts[k].rows
      ensures AboveBound(r.parts, k, DayOf(x.time)) && DayOf(x.time) <= r.parts[k].day
    {
      DropBound(t.parts, i, k, DayOf(x.time));
    }
    forall x | x in r.rest
      ensures AboveBound(r.parts, |r.parts|, DayOf(x.time))
    {
      DropBound(t.parts, i, |r.parts|, DayOf(x.time));
    }
  }

  /** A day above the bound at a position stays above it when an earlier bound goes. */
  lemma DropBound(parts: seq<Part>, i: nat, k: nat, day: int)
    requires Increasing(parts) && i < |parts| && k < |parts|
    requires AboveBound(parts, if k < i then k else k + 1, day)
    ensures AboveBound(parts[..i] + parts[i + 1..], k, day)
  {
    if 0 < k == i {
      assert parts[i - 1].day < parts[i].day;
    }
  }

  /** Dropping a partition loses its rows only, all of them up to its day. */
  lemma DropKeeps(t: Table, i: nat, p: Event -> bool)
    requires Placed(t) && i < |t.parts| && forall e | p(e) :: t.parts[i].day < DayOf(e.time)
    ensures Placed(Drop(t, i)) && CountRows(Drop(t, i), p) == CountRows(t, p)
  {
    DropPlaced(t, i);
    CountPartsRemove(t.parts, i, p);
    assert forall e | e in t.parts[i].rows :: DayOf(e.time) <= t.parts[i].day;
    CountNone(t.parts[i].rows, p);
  }
}
