/** The two backends side by side: on the same events a query gets the same answer from both. */
module Backends {
  import opened Timeline
  import opened Queries
  import opened Paging
  import M = MemoryStore
  import E = MysqlEvents
  import C = QueryCompiler
  import Sql

  lemma {:induction false} SelectedSelects(table: seq<Event>, q: Query, now: int, coll: Folding)
    requires forall e | e in table :: C.Stored(e) == e
    ensures forall e :: e in E.Selected(table, q, now, coll) <==> e in table && C.SqlMatch(q, now, C.StoredRow(e), coll)
  {
    hide C.SqlMatch;
    hide C.StoredRow;
    hide C.Stored;
    if table != [] {
      assert table == [table[0]] + table[1..];
      SelectedSelects(table[1..], q, now, coll);
    }
  }

  lemma {:induction false} SelectedDistinct(table: seq<Event>, q: Query, now: int, coll: Folding)
    requires (forall e | e in table :: C.Stored(e) == e) && DistinctEvents(table)
    ensures DistinctEvents(E.Selected(table, q, now, coll))
  {
    hide C.SqlMatch;
    hide C.StoredRow;
    hide C.Stored;
    if table != [] {
      var rest := E.Selected(table[1..], q, now, coll);
      assert table == [table[0]] + table[1..];
      SelectedDistinct(table[1..], q, now, coll);
      SelectedSelects(table[1..], q, now, coll);
      forall x | x in rest
        ensures Newer(table[0], x) || Newer(x, table[0])
      {
        var j :| 0 <= j < |table[1..]| && table[1..][j] == x;
        assert table[j + 1] == x;
      }
    }
  }

  /** The rows on which the backends cannot part: not cut by the insert, with nothing the compiler
      reads differently, and within the bounds it adds. */
  ghost predicate Plain(e: Event, q: Query, now: int) {
    && C.Stored(e) == e
    && C.Comparable(q, C.StoredRow(e))
    && C.MIN_TIME <= e.time
    && (q.to == 0 ==> e.time <= now)
  }

  lemma PlainMatches(e: Event, q: Query, now: int, coll: Folding)
    requires ValidQuery(q) && C.NamesUnambiguous(q, coll) && Plain(e, q, now)
    ensures C.SqlMatch(q, now, C.StoredRow(e), coll) == Match(e, q, coll)
  {
    hide C.SqlMatch;
    hide C.NamesUnambiguous;
    hide C.Comparable;
    hide Sql.Evaluate;
    hide C.Conjuncts;
    hide Match;
    C.CompiledMeaning(q, now, C.StoredRow(e), coll);
    C.CompilerMatchesAlways(q, now, e, coll);
  }

  /** The backends agree: a table with the events that the ring holds, in whatever order, gives the
      same list for a query, when no other character folds onto one of its names and the database
      finds text as the program does. */
  lemma StoresAgree(log: seq<Event>, n: nat, table: seq<Event>, q: Query, now: int, coll: Folding)
    requires M.Stamped(log) && DistinctEvents(table) && forall e :: e in table <==> e in M.Latest(log, n)
    requires ValidQuery(q) && C.NamesUnambiguous(q, coll) && forall e | e in table :: Plain(e, q, now)
    ensures Sort(E.Selected(table, q, now, coll)) == M.Matching(log, n, q, coll)
  {
    hide C.SqlMatch;
    hide C.NamesUnambiguous;
    hide Match;
    hide M.Latest;
    var rows := E.Selected(table, q, now, coll);
    SelectedSelects(table, q, now, coll);
    SelectedDistinct(table, q, now, coll);
    SortSorts(rows);
    M.MatchingMatches(log, n, q, coll);
    forall e | e in table
      ensures C.SqlMatch(q, now, C.StoredRow(e), coll) == Match(e, q, coll)
    {
      PlainMatches(e, q, now, coll);
    }
    SortedUnique(Sort(rows), M.Matching(log, n, q, coll));
  }

  /** Their pages are then the same exactly when the limit is one the database keeps to, or no more
      is left than that. */
  lemma PagesAgreeExactly(all: seq<Event>, q: Query)
    ensures PageOf(all, q.cursor, if q.limit <= 0 then M.DEFAULT_LIMIT else q.limit)
            == PageOf(all, q.cursor, E.ClampLimit(q.limit))
       <==> q.limit <= E.MAX_LIMIT || |Remaining(all, q.cursor)| <= E.MAX_LIMIT
  {
    hide Remaining;
    var rest := Remaining(all, q.cursor);
    if q.limit > E.MAX_LIMIT && |rest| > E.MAX_LIMIT {
      assert |PageOf(all, q.cursor, E.MAX_LIMIT).events| == E.MAX_LIMIT;
      assert |PageOf(all, q.cursor, q.limit).events| > E.MAX_LIMIT;
    }
  }
}
