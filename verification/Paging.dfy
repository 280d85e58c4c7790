/** Keyset pagination, newest first: what one page is, and what a reader who follows the
    cursors gets when the store changes between pages. Both backends serve these pages. */
module Paging {
  import opened Timeline
  import opened Queries

  datatype Page = Page(events: seq<Event>, next: Cursor, hasMore: bool)

  /** Strictly before in the newest-first ordering; the ID breaks ties. */
  predicate Newer(a: Event, b: Event) {
    a.time > b.time || (a.time == b.time && a.id > b.id)
  }

  ghost predicate NewestFirst(s: seq<Event>) {
    forall i, j | 0 <= i < j < |s| :: Newer(s[i], s[j])
  }

  /** Past a cursor. The zero cursor is before everything. */
  predicate Past(c: Cursor, e: Event) {
    c.time == 0 || e.time < c.time || (e.time == c.time && e.id < c.id)
  }

  function CursorOf(e: Event): Cursor {
    Cursor(e.time, e.id)
  }

  function Remaining(all: seq<Event>, c: Cursor): seq<Event> {
    if all == [] then []
    else (if Past(c, all[0]) then [all[0]] else []) + Remaining(all[1..], c)
  }

  /** The page after a cursor of a list that is newest first. */
  function PageOf(all: seq<Event>, c: Cursor, limit: int): Page
    requires limit > 0
  {
    var rest := Remaining(all, c);
    if |rest| > limit then Page(rest[..limit], CursorOf(rest[limit - 1]), true) else Page(rest, START, false)
  }

  /** A page is the beginning of what is past its cursor, as long as the limit unless that is all; with
      more to come the next cursor is that of its last event. */
  lemma PageFull(all: seq<Event>, c: Cursor, limit: int)
    requires limit > 0
    ensures var (p, rest) := (PageOf(all, c, limit), Remaining(all, c));
            && p.events <= rest
            && (p.hasMore <==> |rest| > limit)
            && |p.events| == (if p.hasMore then limit else |rest|)
            && (p.hasMore ==> (p.next.time, p.next.id) == (p.events[limit - 1].time, p.events[limit - 1].id))
  {}

  /** Once one element of a newest-first list is past the cursor, all later ones are. */
  lemma {:induction false} RemainingSuffix(all: seq<Event>, c: Cursor, i: nat)
    requires NewestFirst(all) && i <= |all|
    requires forall k | 0 <= k < i :: !Past(c, all[k])
    requires i < |all| ==> Past(c, all[i])
    ensures Remaining(all, c) == all[i..]
  {
    if all == [] {
    } else if i > 0 {
      RemainingSuffix(all[1..], c, i - 1);
      assert all[1..][i - 1..] == all[i..];
    } else {
      if |all| > 1 {
        assert Newer(all[0], all[1]);
      }
      RemainingSuffix(all[1..], c, 0);
      assert all == [all[0]] + all[1..] && all[0..] == all && all[1..][0..] == all[1..];
    }
  }

  lemma {:induction false} RemainingKeeps(all: seq<Event>, c: Cursor)
    requires NewestFirst(all)
    ensures NewestFirst(Remaining(all, c))
    ensures forall e :: e in Remaining(all, c) <==> e in all && Past(c, e)
  {
    if all != [] {
      RemainingKeeps(all[1..], c);
      assert forall e | e in all[1..] :: Newer(all[0], e);
    }
  }

  /** Following the cursors over successive states of a store, until a page says it is the last
      or the states run out. */
  function Walk(states: seq<seq<Event>>, c: Cursor, limit: int): seq<Page>
    requires limit > 0
  {
    if states == [] then []
    else
      var page := PageOf(states[0], c, limit);
      [page] + if page.hasMore then Walk(states[1..], page.next, limit) else []
  }

  function Returned(pages: seq<Page>): seq<Event> {
    if pages == [] then [] else pages[0].events + Returned(pages[1..])
  }

  predicate Finished(pages: seq<Page>) {
    pages != [] && !pages[|pages| - 1].hasMore
  }

  /** No page hands out the zero cursor as the way on: no page but the last ends in an event at
      the zero time. */
  predicate CursorsSet(pages: seq<Page>) {
    forall p | p in pages && p.hasMore :: p.next.time != 0
  }

  ghost predicate Ordered(states: seq<seq<Event>>) {
    forall i | 0 <= i < |states| :: NewestFirst(states[i])
  }

  /** The events up to and including a page, and the events past its cursor, do not mix. */
  lemma PageSplits(all: seq<Event>, c: Cursor, limit: int)
    requires limit > 0 && NewestFirst(all)
    requires PageOf(all, c, limit).hasMore ==> PageOf(all, c, limit).next.time != 0
    ensures var p := PageOf(all, c, limit);
            && NewestFirst(p.events)
            && (forall e | e in p.events :: e in all && Past(c, e))
            && (!p.hasMore ==> forall e | e in all && Past(c, e) :: e in p.events)
            && (p.hasMore ==>
                  && (forall e | e in p.events :: !Past(p.next, e))
                  && (forall e | e in all && Past(c, e) && !Past(p.next, e) :: e in p.events)
                  && (forall e | Past(p.next, e) :: Past(c, e) && forall a | a in p.events :: Newer(a, e)))
  {
    var rest := Remaining(all, c);
    RemainingKeeps(all, c);
    if |rest| > limit {
      var last := rest[limit - 1];
      assert last in rest;
      forall e | e in rest[..limit]
        ensures e == last || Newer(e, last)
      {}
      forall e | e in rest && !Past(CursorOf(last), e)
        ensures e in rest[..limit]
      {
        var i :| 0 <= i < |rest| && rest[i] == e;
        assert i >= limit ==> Newer(last, e);
      }
    }
  }

  lemma NewestFirstConcat(a: seq<Event>, b: seq<Event>)
    requires NewestFirst(a) && NewestFirst(b)
    requires forall x, y | x in a && y in b :: Newer(x, y)
    ensures NewestFirst(a + b)
  {}

  /** Pagination is stable under writes. Whatever happens to the store between pages, the pages
      are strictly newest first, so nothing is returned twice; everything returned is past the
      starting cursor and was in some state; and once a page says it is the last, every event
      that was in all the states read has been returned. */
  lemma {:induction false} WalkStable(states: seq<seq<Event>>, c: Cursor, limit: int)
    requires limit > 0 && Ordered(states) && CursorsSet(Walk(states, c, limit))
    ensures var pages := Walk(states, c, limit);
            && |pages| <= |states|
            && NewestFirst(Returned(pages))
            && (forall e | e in Returned(pages) :: Past(c, e) && exists s | s in states :: e in s)
            && (Finished(pages) ==>
                  forall e | Past(c, e) && (forall i | 0 <= i < |pages| :: e in states[i]) :: e in Returned(pages))
  {
    if states != [] {
      var all := states[0];
      var page := PageOf(all, c, limit);
      var pages := Walk(states, c, limit);
      assert all in states && page == pages[0];
      PageSplits(all, c, limit);
      if page.hasMore {
        var later := Walk(states[1..], page.next, limit);
        assert pages == [page] + later && pages[1..] == later;
        WalkStable(states[1..], page.next, limit);
        NewestFirstConcat(page.events, Returned(later));
        if Finished(pages) {
          forall e | Past(c, e) && (forall i | 0 <= i < |pages| :: e in states[i])
            ensures e in Returned(pages)
          {
            assert e in states[0];
            if Past(page.next, e) && later != [] {
              assert forall i | 0 <= i < |later| :: states[1..][i] == states[i + 1];
              assert Finished(later);
            }
          }
        }
      } else {
        assert pages == [page] && Returned(pages) == page.events + Returned([]);
      }
    }
  }

  /** With an event at the zero time before another the promise fails: its cursor is the zero
      cursor, which starts over, so the same event is returned twice. */
  lemma ZeroTimeStartsOver(newer: Event, older: Event)
    requires newer.time == 0 && Newer(newer, older)
    ensures var s := [newer, older];
            && NewestFirst(s)
            && Returned(Walk([s, s], START, 1)) == [newer, newer]
  {
    var s := [newer, older];
    assert s[..1] == [newer];
    StartsOver(s, 0);
  }

  function Copies(s: seq<Event>, n: nat): seq<seq<Event>> {
    if n == 0 then [] else [s] + Copies(s, n - 1)
  }

  lemma {:induction false} CopiesAre(s: seq<Event>, n: nat)
    ensures |Copies(s, n)| == n && forall i | 0 <= i < n :: Copies(s, n)[i] == s
  {
    if n > 0 {
      CopiesAre(s, n - 1);
    }
  }

  /** A page that ends at the zero time is returned again. */
  lemma StartsOver(s: seq<Event>, i: nat)
    requires NewestFirst(s) && i < |s| - 1 && s[i].time == 0
    ensures Returned(Walk([s, s], START, i + 1)) == s[..i + 1] + s[..i + 1]
  {
    RemainingSuffix(s, START, 0);
    assert s[0..] == s;
    var page := PageOf(s, START, i + 1);
    assert page == Page(s[..i + 1], Cursor(0, s[i].id), true);
    RemainingSuffix(s, page.next, 0);
    assert PageOf(s, page.next, i + 1) == page;
    assert [s, s][1..] == [s] && [s][1..] == [];
    assert Walk([s], page.next, i + 1) == [page];
    assert Walk([s, s], START, i + 1) == [page] + [page];
    assert Returned([page]) == s[..i + 1] + [];
  }

  /** The cursor of a page that is not the last is never that of the last event. */
  lemma {:induction false} CopiesSetCursors(s: seq<Event>, n: nat, c: Cursor, limit: int)
    requires limit > 0 && NewestFirst(s) && forall i | 0 <= i < |s| - 1 :: s[i].time != 0
    ensures CursorsSet(Walk(Copies(s, n), c, limit))
  {
    if n > 0 {
      assert Copies(s, n)[1..] == Copies(s, n - 1);
      var page := PageOf(s, c, limit);
      if page.hasMore {
        var first := FirstPast(s, c);
        RemainingSuffix(s, c, first);
        assert page.events[limit - 1] == s[first + limit - 1];
        CopiesSetCursors(s, n - 1, page.next, limit);
      }
    }
  }

  lemma {:induction false} FirstPast(s: seq<Event>, c: Cursor) returns (i: nat)
    ensures i <= |s| && (forall k | 0 <= k < i :: !Past(c, s[k])) && (i < |s| ==> Past(c, s[i]))
  {
    i := 0;
    if s != [] && !Past(c, s[0]) {
      var rest := FirstPast(s[1..], c);
      i := rest + 1;
    }
  }

  lemma PagesDistinct(s: seq<Event>, limit: int, n: nat)
    requires NewestFirst(s) && limit > 0 && forall i | 0 <= i < |s| - 1 :: s[i].time != 0
    ensures NewestFirst(Returned(Walk(Copies(s, n), START, limit)))
  {
    CopiesAre(s, n);
    CopiesSetCursors(s, n, START, limit);
    WalkStable(Copies(s, n), START, limit);
  }

  lemma TwiceNotNewestFirst(a: seq<Event>)
    requires a != []
    ensures !NewestFirst(a + a)
  {
    var i, j := 0, |a|;
    assert (a + a)[i] == a[0] && (a + a)[j] == a[0];
    assert !Newer(a[0], a[0]);
  }

  lemma PagesRepeat(s: seq<Event>, i: nat)
    requires NewestFirst(s) && i < |s| - 1 && s[i].time == 0
    ensures !NewestFirst(Returned(Walk(Copies(s, 2), START, i + 1)))
  {
    hide Walk;
    hide Returned;
    TwoCopies(s);
    StartsOver(s, i);
    TwiceNotNewestFirst(s[..i + 1]);
  }

  /** Over a store that does not change, pages of every size never return an event twice exactly
      when no event but the oldest is at the zero time. */
  lemma PagesRepeatExactly(s: seq<Event>)
    requires NewestFirst(s)
    ensures (forall limit, n: nat | limit > 0 :: NewestFirst(Returned(Walk(Copies(s, n), START, limit))))
       <==> forall i | 0 <= i < |s| - 1 :: s[i].time != 0
  {
    hide NewestFirst;
    hide Walk;
    hide Returned;
    hide Copies;
    if i :| 0 <= i < |s| - 1 && s[i].time == 0 {
      PagesRepeat(s, i);
    } else {
      forall limit, n: nat | limit > 0
        ensures NewestFirst(Returned(Walk(Copies(s, n), START, limit)))
      {
        PagesDistinct(s, limit, n);
      }
    }
  }

  lemma TwoCopies(s: seq<Event>)
    ensures Copies(s, 2) == [s, s]
  {
    assert Copies(s, 1) == [s] + Copies(s, 0);
  }

  /** Events at non-zero times only ever give non-zero cursors. */
  lemma {:induction false} NonZeroTimesSetCursors(states: seq<seq<Event>>, c: Cursor, limit: int)
    requires limit > 0 && Ordered(states)
    requires forall i, e | 0 <= i < |states| && e in states[i] :: e.time != 0
    ensures CursorsSet(Walk(states, c, limit))
  {
    if states != [] {
      var page := PageOf(states[0], c, limit);
      RemainingKeeps(states[0], c);
      if page.hasMore {
        assert page.events[limit - 1] in states[0];
        NonZeroTimesSetCursors(states[1..], page.next, limit);
      }
    }
  }

  // ---- sorting ---------------------------------------------------------------

  function Insert(e: Event, s: seq<Event>): seq<Event> {
    if s == [] || Newer(e, s[0]) then [e] + s else [s[0]] + Insert(e, s[1..])
  }

  /** The events of a list, newest first. */
  function Sort(s: seq<Event>): seq<Event> {
    if s == [] then [] else Insert(s[0], Sort(s[1..]))
  }

  ghost predicate DistinctEvents(s: seq<Event>) {
    forall i, j | 0 <= i < j < |s| :: Newer(s[i], s[j]) || Newer(s[j], s[i])
  }

  lemma {:induction false} InsertSorts(e: Event, s: seq<Event>)
    requires NewestFirst(s) && forall x | x in s :: Newer(e, x) || Newer(x, e)
    ensures NewestFirst(Insert(e, s))
    ensures forall x :: x in Insert(e, s) <==> x == e || x in s
  {
    if s != [] && !Newer(e, s[0]) {
      assert s == [s[0]] + s[1..];
      InsertSorts(e, s[1..]);
      assert forall x | x in Insert(e, s[1..]) :: Newer(s[0], x);
    } else if s != [] {
      assert forall x | x in s[1..] :: Newer(s[0], x);
    }
  }

  lemma {:induction false} SortSorts(s: seq<Event>)
    requires DistinctEvents(s)
    ensures NewestFirst(Sort(s))
    ensures forall e :: e in Sort(s) <==> e in s
  {
    if s != [] {
      SortSorts(s[1..]);
      assert s == [s[0]] + s[1..];
      forall x | x in s[1..]
        ensures Newer(s[0], x) || Newer(x, s[0])
      {
        var j :| 0 <= j < |s[1..]| && s[1..][j] == x;
        assert s[j + 1] == x;
      }
      InsertSorts(s[0], Sort(s[1..]));
    }
  }

  lemma TailElements(a: seq<Event>)
    requires NewestFirst(a) && a != []
    ensures forall e :: e in a[1..] <==> e in a && e != a[0]
  {
    assert a == [a[0]] + a[1..];
  }

  lemma First(s: seq<Event>) returns (e: Event)
    requires s != []
    ensures e in s
  {
    e := s[0];
  }

  /** A newest-first list is determined by its elements, so any correct sort gives this one. */
  lemma {:induction false} SortedUnique(a: seq<Event>, b: seq<Event>)
    requires NewestFirst(a) && NewestFirst(b) && forall e :: e in a <==> e in b
    ensures a == b
  {
    if a == [] {
      if b != [] {
        var e := First(b);
      }
    } else {
      assert a[0] in b;
      assert b[0] in a;
      assert a[0] == b[0];
      TailElements(a);
      TailElements(b);
      SortedUnique(a[1..], b[1..]);
    }
  }
}
