/** Pages of events from the database (storage/mysql/query.go): one query that fetches a row
    more than the page, with the cursor as a keyset condition. */
module MysqlEvents {
  import opened Wrappers
  import opened Timeline
  import opened Queries
  import opened Sql
  import opened Sequences
  import opened QueryCompiler
  import opened Paging

  const DEFAULT_LIMIT := 100
  const MAX_LIMIT := 1000

  function ClampLimit(n: int): int {
    if n <= 0 then DEFAULT_LIMIT else if n > MAX_LIMIT then MAX_LIMIT else n
  }

  /** (time < ? OR (time = ? AND id < ?)) */
  const CURSOR_TEXT: Text :=
    [Open, Col(Time), Less, Param, Or, Open, Col(Time), Equals, Param, And, Col(Id), Less, Param, Close, Close]

  function CursorArgs(c: Cursor): seq<Arg> {
    [Num(c.time), Num(c.time), Num(c.id)]
  }

  /** The conjuncts of the events query: the filters, and the cursor when there is one. */
  function EventConjuncts(q: Query, now: int): seq<(Text, seq<Arg>)> {
    Conjuncts(q, now) + if q.cursor.time == 0 then [] else [(CURSOR_TEXT, CursorArgs(q.cursor))]
  }

  function EventText(q: Query, now: int): Text {
    Join(Texts(EventConjuncts(q, now)), And)
  }

  function EventArgs(q: Query, now: int): seq<Arg> {
    Concat(Groups(EventConjuncts(q, now)))
  }

  lemma TwoTrue(a: bool, b: bool)
    ensures AllTrue([a, b]) <==> a && b
    ensures AnyTrue([a, b]) <==> a || b
  {
    TrueCons([a, b]);
    TrueCons([b]);
    assert [a, b][1..] == [b] && [b][1..] == [];
  }

  lemma CursorMeans(row: Row, coll: Folding, c: Cursor)
    requires c.time != 0
    ensures Means(row, coll, CURSOR_TEXT, CursorArgs(c), Past(c, row.event))
  {
    hide Means;
    hide Join;
    hide Concat;
    var before, at, below := [Col(Time), Less, Param], [Col(Time), Equals, Param], [Col(Id), Less, Param];
    var t, i := [Num(c.time)], [Num(c.id)];
    var isBefore, isAt, isBelow := row.event.time < c.time, row.event.time == c.time, row.event.id < c.id;
    ComparisonMeans(row, coll, Time, Less, Num(c.time));
    ComparisonMeans(row, coll, Time, Equals, Num(c.time));
    ComparisonMeans(row, coll, Id, Less, Num(c.id));
    ParenthesisedAnd(row, coll, [at, below], [t, i], [isAt, isBelow]);
    ConcatTwo(t, i);
    TwoTrue(isAt, isBelow);
    JoinTwo(at, below, And);
    var both := [Open] + (at + [And] + below) + [Close];
    ParenthesisedOr(row, coll, [before, both], [t, t + i], [isBefore, isAt && isBelow]);
    ConcatTwo(t, t + i);
    TwoTrue(isBefore, isAt && isBelow);
    JoinTwo(before, both, Or);
    assert t + (t + i) == CursorArgs(c);
    assert CURSOR_TEXT == [Open] + (before + [Or] + both) + [Close];
  }

  /** What the database does with the condition: all rows it holds for, or an error. */
  function SelectWhere(table: seq<Event>, text: Text, args: seq<Arg>, coll: Folding): Option<seq<Event>> {
    if table == [] then Some([])
    else
      match (Evaluate(StoredRow(table[0]), text, args, coll), SelectWhere(table[1..], text, args, coll))
      case (Some(b), Some(rest)) => Some((if b then [Stored(table[0])] else []) + rest)
      case _ => None
  }

  /** The rows that satisfy the filters, whatever the cursor. */
  function Selected(table: seq<Event>, q: Query, now: int, coll: Folding): seq<Event> {
    if table == [] then []
    else (if SqlMatch(q, now, StoredRow(table[0]), coll) then [Stored(table[0])] else [])
         + Selected(table[1..], q, now, coll)
  }

  /** The condition with the cursor means the filters and the keyset condition. */
  lemma CursorConditionMeaning(q: Query, now: int, row: Row, coll: Folding)
    requires ValidQuery(q)
    ensures Evaluate(row, EventText(q, now), EventArgs(q, now), coll)
         == Some(SqlMatch(q, now, row, coll) && Past(q.cursor, row.event))
  {
    hide Means;
    hide AllTrue;
    hide Past;
    var cs := EventConjuncts(q, now);
    if q.cursor.time == 0 {
      assert cs == Conjuncts(q, now);
      CompiledMeaning(q, now, row, coll);
      StartIsBeforeAll(q.cursor, row.event);
    } else {
      var bs := ConjunctsDenote(q, now, row, coll);
      var past := [Past(q.cursor, row.event)];
      CursorMeans(row, coll, q.cursor);
      DenoteAppend(Conjuncts(q, now), [(CURSOR_TEXT, CursorArgs(q.cursor))], row, coll, bs, past);
      AllTrueAppend(bs, past);
      AllTrueShort(past);
      DenotedMeaning(cs, row, coll, bs + past);
    }
  }

  lemma StartIsBeforeAll(c: Cursor, e: Event)
    requires c.time == 0
    ensures Past(c, e)
  {}

  lemma RemainingCons(e: Event, rest: seq<Event>, c: Cursor)
    ensures Remaining([e] + rest, c) == (if Past(c, e) then [e] else []) + Remaining(rest, c)
  {
    assert ([e] + rest)[1..] == rest;
  }

  lemma {:induction false} SelectsRemaining(table: seq<Event>, q: Query, now: int, coll: Folding)
    requires ValidQuery(q)
    ensures SelectWhere(table, EventText(q, now), EventArgs(q, now), coll)
         == Some(Remaining(Selected(table, q, now, coll), q.cursor))
  {
    hide SqlMatch;
    hide Evaluate;
    hide EventText;
    hide EventArgs;
    hide Past;
    if table != [] {
      var rest := Selected(table[1..], q, now, coll);
      CursorConditionMeaning(q, now, StoredRow(table[0]), coll);
      SelectsRemaining(table[1..], q, now, coll);
      RemainingCons(Stored(table[0]), rest, q.cursor);
      assert [] + rest == rest && [] + Remaining(rest, q.cursor) == Remaining(rest, q.cursor);
    }
  }

  lemma {:induction false} RemainingDistinct(s: seq<Event>, c: Cursor)
    requires DistinctEvents(s)
    ensures DistinctEvents(Remaining(s, c)) && forall e :: e in Remaining(s, c) <==> e in s && Past(c, e)
  {
    if s != [] {
      RemainingDistinct(s[1..], c);
      assert s == [s[0]] + s[1..];
      var rest := Remaining(s[1..], c);
      forall j | 0 <= j < |rest|
        ensures Newer(s[0], rest[j]) || Newer(rest[j], s[0])
      {
        assert rest[j] in s[1..];
        var k :| 0 <= k < |s[1..]| && s[1..][k] == rest[j];
        assert s[k + 1] == rest[j];
      }
    }
  }

  /** Sorting what is past the cursor, or cutting the sorted list at the cursor, is the same. */
  lemma SortRemaining(s: seq<Event>, c: Cursor)
    requires DistinctEvents(s)
    ensures Sort(Remaining(s, c)) == Remaining(Sort(s), c)
  {
    RemainingDistinct(s, c);
    SortSorts(s);
    SortSorts(Remaining(s, c));
    RemainingKeeps(Sort(s), c);
    SortedUnique(Sort(Remaining(s, c)), Remaining(Sort(s), c));
  }

  /** The condition of the events query, as `Events` assembles it. */
  method BuildEventsWhere(q: Query, now: int) returns (text: Text, args: seq<Arg>)
    ensures text == EventText(q, now) && args == EventArgs(q, now)
  {
    hide Join;
    hide Concat;
    text, args := BuildWhere(q, now);
    ghost var cs := Conjuncts(q, now);
    if q.cursor.time != 0 {
      JoinAppend(Texts(cs), CURSOR_TEXT, And);
      ConcatAppend(Groups(cs), CursorArgs(q.cursor));
      text := text + [And] + CURSOR_TEXT;
      args := args + [Num(q.cursor.time), Num(q.cursor.time), Num(q.cursor.id)];
      assert Texts(EventConjuncts(q, now)) == Texts(cs) + [CURSOR_TEXT];
      assert Groups(EventConjuncts(q, now)) == Groups(cs) + [CursorArgs(q.cursor)];
    } else {
      assert EventConjuncts(q, now) == cs;
    }
  }

  /** ORDER BY time DESC, id DESC LIMIT ? */
  function Fetch(rows: seq<Event>, limit: nat): seq<Event> {
    var all := Sort(rows);
    if |all| > limit then all[..limit] else all
  }

  /** `Events`: the page of the filtered rows after the cursor, whatever is in the table. */
  method Events(table: seq<Event>, q: Query, now: int, coll: Folding) returns (r: Option<Page>)
    requires DistinctEvents(Selected(table, q, now, coll))
    ensures r == if !ValidQuery(q) then None
                 else Some(PageOf(Sort(Selected(table, q, now, coll)), q.cursor, ClampLimit(q.limit)))
  {
    hide SqlMatch;
    hide EventText;
    hide EventArgs;
    hide Selected;
    hide Sort;
    hide Remaining;
    hide SelectWhere;
    if !ValidQuery(q) {
      return None;
    }
    var limit := ClampLimit(q.limit);
    var text, args := BuildEventsWhere(q, now);
    SelectsRemaining(table, q, now, coll);
    SortRemaining(Selected(table, q, now, coll), q.cursor);
    var events := Fetch(SelectWhere(table, text, args, coll).value, limit + 1);
    ghost var all := Remaining(Sort(Selected(table, q, now, coll)), q.cursor);
    if |events| > limit {
      assert events[..limit] == all[..limit];
      events := events[..limit];
      r := Some(Page(events, CursorOf(events[limit - 1]), true));
    } else {
      r := Some(Page(events, START, false));
    }
  }

  /** The lower bound of all queries keeps the zero time out. */
  lemma {:induction false} SelectedLate(table: seq<Event>, q: Query, now: int, coll: Folding)
    ensures forall e | e in Selected(table, q, now, coll) :: MIN_TIME <= e.time
  {
    if table != [] {
      SelectedLate(table[1..], q, now, coll);
    }
  }

  /** Pagination over the database, whatever is inserted, dropped or happens to the clock between
      pages. */
  lemma TablePagesStable(tables: seq<seq<Event>>, nows: seq<int>, q: Query, coll: Folding, limit: int)
    requires limit > 0 && |tables| == |nows|
    requires forall i | 0 <= i < |tables| :: DistinctEvents(Selected(tables[i], q, nows[i], coll))
    ensures var states := seq(|tables|, i requires 0 <= i < |tables| => Sort(Selected(tables[i], q, nows[i], coll)));
            var pages := Walk(states, START, limit);
            && |pages| <= |tables|
            && NewestFirst(Returned(pages))
            && (Finished(pages) ==>
                  forall e | (forall i | 0 <= i < |pages| :: e in Selected(tables[i], q, nows[i], coll)) ::
                    e in Returned(pages))
  {
    hide Selected;
    hide Walk;
    hide Returned;
    var states := seq(|tables|, i requires 0 <= i < |tables| => Sort(Selected(tables[i], q, nows[i], coll)));
    forall i | 0 <= i < |states|
      ensures NewestFirst(states[i])
      ensures forall e :: e in states[i] <==> e in Selected(tables[i], q, nows[i], coll)
      ensures forall e: Event | e in states[i] :: e.time != 0
    {
      SortSorts(Selected(tables[i], q, nows[i], coll));
      SelectedLate(tables[i], q, nows[i], coll);
    }
    NonZeroTimesSetCursors(states, START, limit);
    WalkStable(states, START, limit);
  }
}
