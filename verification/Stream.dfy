/** The live stream (server/stream.go): one publisher and one reader over a bounded channel and an
    overflow flag, interleaved at every atomic step. A failed send and the raising of the flag are
    two steps; the hub's lock is held between them, which stops other publishers but not the
    reader. */
module Stream {
  import opened Wrappers
  import opened Timeline
  import opened Queries

  const CLIENT_BUFFER := 256

  /** Where the reading loop is. */
  datatype Phase = Idle | Got(event: Event) | Wrote | Done

  /** One client and what the hub knows of it, followed by a record of what happened: the matching
      events published since it subscribed, those the channel took, how many matched before the
      first one that was dropped, and those written to the client. */
  datatype State = State(
    hubClosed: bool, dropping: bool, subscribed: bool, open: bool, overflow: bool, buffer: seq<Event>, phase: Phase,
    matched: seq<Event>, accepted: seq<Event>, firstDrop: Option<nat>, written: seq<Event>)

  datatype Move =
    | Offer(event: Event)  // Publish: the send, or the decision to drop
    | Raise                // Publish: the overflow flag, after a drop
    | Close                // Hub.Close
    | Unsubscribe
    | Receive              // the reader takes an event, or learns that the channel is closed
    | Write
    | Look                // the reader looks at the overflow flag
    | Ping
    | HangUp               // the request ends

  /** A client subscribed to a hub that may be closed already. */
  function Subscribed(hubClosed: bool): State {
    State(hubClosed, false, !hubClosed, !hubClosed, false, [], Idle, [], [], None, [])
  }

  predicate Enabled(s: State, m: Move) {
    match m
    case Offer(_) => !s.dropping
    case Raise => s.dropping
    case Close => !s.dropping
    case Unsubscribe => !s.dropping && s.phase == Done
    case Receive => s.phase == Idle && (s.buffer != [] || !s.open)
    case Write => s.phase.Got?
    case Look => s.phase == Wrote
    case Ping => s.phase == Idle
    case HangUp => s.phase == Idle
  }

  /** One step; a move that cannot be made now changes nothing. */
  function Next(s: State, m: Move, q: Query, lower: Folding): State {
    if !Enabled(s, m) then s
    else
      match m
      case Offer(e) =>
        if s.hubClosed || !s.subscribed || !Match(e, q, lower) then s
        else if |s.buffer| < CLIENT_BUFFER then
          s.(buffer := s.buffer + [e], matched := s.matched + [e], accepted := s.accepted + [e])
        else
          s.(dropping := true, matched := s.matched + [e],
             firstDrop := if s.firstDrop.None? then Some(|s.matched|) else s.firstDrop)
      case Raise => s.(dropping := false, overflow := true)
      case Close => s.(hubClosed := true, subscribed := false, open := if s.subscribed then false else s.open)
      case Unsubscribe => s.(subscribed := false)
      case Receive => if s.buffer == [] then s.(phase := Done)
                      else s.(phase := Got(s.buffer[0]), buffer := s.buffer[1..])
      case Write => s.(phase := Wrote, written := s.written + [s.phase.event])
      case Look => s.(phase := if s.overflow then Done else Idle)
      case Ping => s
      case HangUp => s.(phase := Done)
  }

  /** The state after any interleaving of moves. */
  function After(s: State, moves: seq<Move>, q: Query, lower: Folding): State {
    if moves == [] then s else Next(After(s, moves[..|moves| - 1], q, lower), moves[|moves| - 1], q, lower)
  }

  function InFlight(s: State): seq<Event> {
    if s.phase.Got? then [s.phase.event] else []
  }

  /** What holds after every step. */
  ghost predicate Valid(s: State) {
    && (s.subscribed ==> s.open && !s.hubClosed)
    && (s.dropping ==> s.subscribed)
    && |s.buffer| <= CLIENT_BUFFER
    && (if s.phase == Done then s.written <= s.accepted else s.accepted == s.written + InFlight(s) + s.buffer)
    && match s.firstDrop
       case None => s.accepted == s.matched && !s.overflow && !s.dropping
       case Some(n) =>
         && n < |s.matched| && n <= |s.accepted| && s.accepted[..n] == s.matched[..n]
         && (!s.overflow ==> s.dropping && |s.accepted| == n)
  }

  lemma OfferValid(s: State, e: Event, q: Query, lower: Folding)
    requires Valid(s)
    ensures Valid(Next(s, Offer(e), q, lower))
  {
    hide Match;
    var t := Next(s, Offer(e), q, lower);
    if t.accepted != s.accepted {
      assert s.written + InFlight(s) + s.buffer + [e] == s.written + InFlight(s) + (s.buffer + [e]);
      assert s.accepted <= t.accepted;
      if s.firstDrop.Some? {
        var n := s.firstDrop.value;
        assert t.matched[..n] == s.matched[..n] && t.accepted[..n] == s.accepted[..n];
      }
    } else if t.matched != s.matched {
      if s.firstDrop.Some? {
        assert t.matched[..s.firstDrop.value] == s.matched[..s.firstDrop.value];
      } else {
        assert t.matched[..|s.matched|] == s.matched && t.accepted[..|s.accepted|] == s.accepted;
      }
    }
  }

  lemma MoveOne(written: seq<Event>, buffer: seq<Event>)
    requires buffer != []
    ensures written + [] + buffer == written + [buffer[0]] + buffer[1..]
  {}

  lemma ReceiveValid(s: State, q: Query, lower: Folding)
    requires Valid(s)
    ensures Valid(Next(s, Receive, q, lower))
  {
    hide Match;
    if s.phase == Idle && s.buffer != [] {
      MoveOne(s.written, s.buffer);
    }
  }

  lemma WriteValid(s: State, q: Query, lower: Folding)
    requires Valid(s)
    ensures Valid(Next(s, Write, q, lower))
  {
    hide Match;
    var t := Next(s, Write, q, lower);
    if s.phase.Got? {
      assert t.written + [] == s.written + InFlight(s);
    }
  }

  lemma NextValid(s: State, m: Move, q: Query, lower: Folding)
    requires Valid(s)
    ensures Valid(Next(s, m, q, lower))
  {
    hide Match;
    match m
    case Offer(e) => OfferValid(s, e, q, lower);
    case Receive => ReceiveValid(s, q, lower);
    case Write => WriteValid(s, q, lower);
    case _ =>
  }

  /** Only a running, registered channel is sent to or closed, so no step sends on a closed channel
      or closes one twice. */
  lemma ChannelUsedOpen(s: State, m: Move, q: Query, lower: Folding)
    requires Valid(s)
    ensures Next(s, m, q, lower).accepted != s.accepted ==> s.open
    ensures m.Close? && Enabled(s, m) && s.subscribed ==> s.open && !Next(s, m, q, lower).open
    ensures !s.open ==> !Next(s, m, q, lower).open && !s.subscribed && !Next(s, m, q, lower).subscribed
  {
    hide Match;
  }

  lemma {:induction false} AfterValid(hubClosed: bool, moves: seq<Move>, q: Query, lower: Folding)
    ensures Valid(After(Subscribed(hubClosed), moves, q, lower))
  {
    hide Next;
    if moves != [] {
      AfterValid(hubClosed, moves[..|moves| - 1], q, lower);
      NextValid(After(Subscribed(hubClosed), moves[..|moves| - 1], q, lower), moves[|moves| - 1], q, lower);
    } else {
      FreshValid(hubClosed);
    }
  }

  lemma FreshValid(hubClosed: bool)
    ensures Valid(Subscribed(hubClosed))
  {}

  /** What is sent gets in: a subscribed client takes a matching event that there is room for, and the
      one after is dropped and the flag raised. Nothing else ends the reading than the flag seen up,
      a closed channel seen empty, or the end of the request; and a ping changes nothing. */
  lemma StepsTake(s: State, m: Move, q: Query, lower: Folding)
    requires Valid(s)
    ensures m.Offer? && s.subscribed && !s.dropping && Match(m.event, q, lower) ==>
              var t := Next(s, m, q, lower);
              && t.matched == s.matched + [m.event]
              && if |s.buffer| < CLIENT_BUFFER then t.accepted == s.accepted + [m.event] && !t.dropping
                 else t.accepted == s.accepted && t.dropping
    ensures m.Raise? && s.dropping ==> Next(s, m, q, lower).overflow && !Next(s, m, q, lower).dropping
    ensures s.phase != Done ==>
              (Next(s, m, q, lower).phase == Done <==>
                 || (m.HangUp? && s.phase == Idle)
                 || (m.Receive? && s.phase == Idle && s.buffer == [] && !s.open)
                 || (m.Look? && s.phase == Wrote && s.overflow))
    ensures m.Ping? ==> Next(s, m, q, lower) == s
    ensures m.Unsubscribe? && s.phase == Done && !s.dropping ==> !Next(s, m, q, lower).subscribed
  {
    hide Match;
  }

  /** The moves of a reader that is left alone. */
  ghost predicate ReaderOnly(moves: seq<Move>) {
    forall i | 0 <= i < |moves| :: moves[i].Receive? || moves[i].Write? || moves[i].Look?
  }

  /** One event further. */
  function OneRead(s: State): State
    requires s.phase == Idle && s.buffer != [] && !s.overflow
  {
    s.(buffer := s.buffer[1..], written := s.written + [s.buffer[0]])
  }

  lemma ReadSteps(s: State, q: Query, lower: Folding)
    requires s.phase == Idle && s.buffer != [] && !s.overflow
    ensures Next(Next(Next(s, Receive, q, lower), Write, q, lower), Look, q, lower) == OneRead(s)
  {
    hide Match;
  }

  lemma ReadsOne(s: State, q: Query, lower: Folding)
    requires s.phase == Idle && s.buffer != [] && !s.overflow
    ensures After(s, [Receive, Write, Look], q, lower) == OneRead(s)
  {
    hide Next;
    ReadSteps(s, q, lower);
    AfterTwo(s, Receive, Write, q, lower);
    AfterOne(s, [Receive, Write], Look, q, lower);
    assert [Receive, Write] + [Look] == [Receive, Write, Look];
    hide After;
  }

  /** Left alone with the flag down a reader between events writes all that the channel holds. */
  lemma {:induction false} ReadsAll(s: State, q: Query, lower: Folding) returns (moves: seq<Move>)
    requires s.phase == Idle && !s.overflow
    ensures ReaderOnly(moves) && After(s, moves, q, lower) == s.(buffer := [], written := s.written + s.buffer)
    decreases |s.buffer|
  {
    if s.buffer == [] {
      moves := [];
      assert s.written + s.buffer == s.written;
    } else {
      var rest := ReadsAll(OneRead(s), q, lower);
      ReadsOne(s, q, lower);
      AfterMore(s, [Receive, Write, Look], rest, q, lower);
      moves := [Receive, Write, Look] + rest;
      assert s.written + [s.buffer[0]] + s.buffer[1..] == s.written + s.buffer;
      hide After;
    }
  }

  /** From any state with the flag down a reader that is left alone writes every accepted event. */
  lemma EverythingWritten(s: State, q: Query, lower: Folding) returns (moves: seq<Move>)
    requires Valid(s) && s.phase != Done && !s.overflow
    ensures ReaderOnly(moves)
    ensures var t := After(s, moves, q, lower); t.written == s.accepted && t.buffer == [] && t.phase == Idle
  {
    hide After;
    match s.phase
    case Idle =>
      moves := ReadsAll(s, q, lower);
      assert s.written + [] + s.buffer == s.written + s.buffer;
    case Got(e) =>
      var t := s.(phase := Idle, written := s.written + [e]);
      var rest := ReadsAll(t, q, lower);
      AfterTwo(s, Write, Look, q, lower);
      AfterMore(s, [Write, Look], rest, q, lower);
      moves := [Write, Look] + rest;
    case Wrote =>
      var t := s.(phase := Idle);
      var rest := ReadsAll(t, q, lower);
      NoMoves(s, q, lower);
      AfterOne(s, [], Look, q, lower);
      AfterMore(s, [Look], rest, q, lower);
      assert [] + [Look] == [Look];
      moves := [Look] + rest;
      assert s.written + [] + s.buffer == s.written + s.buffer;
  }

  lemma AfterTwo(s: State, a: Move, b: Move, q: Query, lower: Folding)
    ensures After(s, [a, b], q, lower) == Next(Next(s, a, q, lower), b, q, lower)
  {
    hide Next;
    NoMoves(s, q, lower);
    AfterOne(s, [], a, q, lower);
    AfterOne(s, [a], b, q, lower);
    assert [] + [a] == [a] && [a] + [b] == [a, b];
  }

  /** With the flag up a reader that is left alone ends, unless it is caught up: then it waits. */
  lemma FlagSeen(s: State, q: Query, lower: Folding) returns (moves: seq<Move>)
    requires Valid(s) && s.overflow && s.phase != Done && (!CaughtUp(s) || !s.open)
    ensures ReaderOnly(moves)
    ensures After(s, moves, q, lower).phase == Done
  {
    hide After;
    NoMoves(s, q, lower);
    match s.phase
    case Idle =>
      if s.buffer != [] {
        moves := [Receive, Write] + [Look];
        AfterTwo(s, Receive, Write, q, lower);
        AfterOne(s, [Receive, Write], Look, q, lower);
      } else {
        moves := [Receive];
        AfterOne(s, [], Receive, q, lower);
        assert [] + [Receive] == [Receive];
      }
    case Got(e) =>
      moves := [Write, Look];
      AfterTwo(s, Write, Look, q, lower);
    case Wrote =>
      moves := [Look];
      AfterOne(s, [], Look, q, lower);
      assert [] + [Look] == [Look];
  }

  lemma {:induction false} CaughtUpWaits(s: State, moves: seq<Move>, q: Query, lower: Folding)
    requires CaughtUp(s) && s.open && ReaderOnly(moves)
    ensures After(s, moves, q, lower) == s
  {
    if moves != [] {
      CaughtUpWaits(s, moves[..|moves| - 1], q, lower);
    }
  }

  // ---- no event past a drop --------------------------------------------------

  /** The one way to write past a drop: the flag first goes up when the reader has already emptied
      the channel and last looked before. */
  predicate CaughtUp(s: State) {
    s.phase == Idle && s.buffer == []
  }

  /** The reader was not caught up when the flag first went up. */
  ghost predicate NeverCaughtUp(s: State, moves: seq<Move>, q: Query, lower: Folding) {
    moves == [] ||
    (var init := moves[..|moves| - 1];
     var before := After(s, init, q, lower);
     && NeverCaughtUp(s, init, q, lower)
     && (moves[|moves| - 1].Raise? && before.dropping && !before.overflow ==> !CaughtUp(before)))
  }

  /** The events written and the one in flight predate the first drop; once the flag is up, an
      idle reader has room for the one event it may still take. */
  ghost predicate BeforeDrop(s: State) {
    match s.firstDrop
    case None => true
    case Some(n) =>
      && |s.written + InFlight(s)| <= n
      && (s.overflow && s.phase == Idle ==> |s.written| < n)
  }

  lemma NextBeforeDrop(s: State, m: Move, q: Query, lower: Folding)
    requires Valid(s) && BeforeDrop(s) && (m.Raise? && s.dropping && !s.overflow ==> !CaughtUp(s))
    ensures BeforeDrop(Next(s, m, q, lower))
  {
    hide Match;
  }

  /** The events written are a contiguous prefix of the matching events published since the
      client subscribed, and end before the first one dropped, unless the reader was caught up
      when the flag first went up. */
  lemma {:induction false} NoEventPastDrop(hubClosed: bool, moves: seq<Move>, q: Query, lower: Folding)
    requires NeverCaughtUp(Subscribed(hubClosed), moves, q, lower)
    ensures var t := After(Subscribed(hubClosed), moves, q, lower);
            && BeforeDrop(t)
            && t.written <= t.matched
            && (t.firstDrop.Some? ==> |t.written| <= t.firstDrop.value)
  {
    hide Next;
    var s := Subscribed(hubClosed);
    AfterValid(hubClosed, moves, q, lower);
    if moves != [] {
      var init := moves[..|moves| - 1];
      NoEventPastDrop(hubClosed, init, q, lower);
      AfterValid(hubClosed, init, q, lower);
      NextBeforeDrop(After(s, init, q, lower), moves[|moves| - 1], q, lower);
    }
    PrefixBeforeDrop(After(s, moves, q, lower));
  }

  lemma PrefixBeforeDrop(t: State)
    requires Valid(t) && BeforeDrop(t)
    ensures t.written <= t.matched
  {
    match t.firstDrop
    case None =>
    case Some(n) =>
      assert t.written <= t.accepted[..n];
  }

  lemma AfterOne(s: State, moves: seq<Move>, m: Move, q: Query, lower: Folding)
    ensures After(s, moves + [m], q, lower) == Next(After(s, moves, q, lower), m, q, lower)
  {
    assert (moves + [m])[..|moves|] == moves;
  }

  /** Otherwise the promise fails with the next matching event: it is written in the place of the
      one that was dropped. */
  lemma CaughtUpWritesPastDrop(s: State, e: Event, q: Query, lower: Folding)
    requires Valid(s) && s.dropping && !s.overflow && CaughtUp(s) && Match(e, q, lower)
    ensures var t := After(s, [Raise, Offer(e), Receive, Write], q, lower);
            && s.firstDrop.Some? && t.firstDrop == s.firstDrop
            && t.matched == s.matched + [e]
            && t.written == t.matched[..s.firstDrop.value] + [e]
  {
    hide Match;
    var a := Next(s, Raise, q, lower);
    var b := Next(a, Offer(e), q, lower);
    var c := Next(b, Receive, q, lower);
    var d := Next(c, Write, q, lower);
    AfterOne(s, [], Raise, q, lower);
    AfterOne(s, [Raise], Offer(e), q, lower);
    AfterOne(s, [Raise, Offer(e)], Receive, q, lower);
    AfterOne(s, [Raise, Offer(e), Receive], Write, q, lower);
    assert After(s, [], q, lower) == s && [] + [Raise] == [Raise];
    assert [Raise] + [Offer(e)] == [Raise, Offer(e)];
    assert [Raise, Offer(e)] + [Receive] == [Raise, Offer(e), Receive];
    assert [Raise, Offer(e), Receive] + [Write] == [Raise, Offer(e), Receive, Write];
    hide After;
    assert s.written == s.accepted && s.written == s.matched[..s.firstDrop.value];
    assert d.matched[..s.firstDrop.value] == s.matched[..s.firstDrop.value];
  }

  /** What holds from the first raising of the flag on, if the reader was not caught up then. */
  ghost predicate Settled(s: State) {
    Valid(s) && BeforeDrop(s) && s.overflow && s.firstDrop.Some?
  }

  lemma {:induction false} SettledStays(s: State, moves: seq<Move>, q: Query, lower: Folding)
    requires Settled(s)
    ensures Settled(After(s, moves, q, lower))
  {
    hide Next;
    if moves != [] {
      var before, m := After(s, moves[..|moves| - 1], q, lower), moves[|moves| - 1];
      SettledStays(s, moves[..|moves| - 1], q, lower);
      NextValid(before, m, q, lower);
      NextBeforeDrop(before, m, q, lower);
      FlagStaysUp(before, m, q, lower);
    }
  }

  lemma FlagStaysUp(s: State, m: Move, q: Query, lower: Folding)
    requires s.overflow && s.firstDrop.Some?
    ensures Next(s, m, q, lower).overflow && Next(s, m, q, lower).firstDrop.Some?
  {
    hide Match;
  }

  lemma FirstRaiseSettles(s: State, q: Query, lower: Folding)
    requires Valid(s) && s.dropping && !s.overflow && !CaughtUp(s)
    ensures Settled(Next(s, Raise, q, lower))
  {
    var t := Next(s, Raise, q, lower);
    assert |s.written + InFlight(s)| <= |s.accepted|;
    if s.phase == Idle {
      assert |s.accepted| == |s.written| + |s.buffer|;
    }
  }

  /** The first raising of the flag decides: from there on, every schedule writes a prefix of the
      matching events if and only if the reader was not caught up then. (The next event that
      matches must differ from the dropped one for its place to show.) */
  lemma FirstRaiseDecides(s: State, e: Event, q: Query, lower: Folding)
    requires Valid(s) && s.dropping && !s.overflow && Match(e, q, lower)
    requires s.firstDrop.Some? && e != s.matched[s.firstDrop.value]
    ensures (forall moves :: var t := After(Next(s, Raise, q, lower), moves, q, lower); t.written <= t.matched)
       <==> !CaughtUp(s)
  {
    var raised := Next(s, Raise, q, lower);
    if CaughtUp(s) {
      hide Match;
      CaughtUpWritesPastDrop(s, e, q, lower);
      var rest := [Offer(e), Receive, Write];
      assert [Raise] + rest == [Raise, Offer(e), Receive, Write];
      AfterMore(s, [Raise], rest, q, lower);
      AfterOne(s, [], Raise, q, lower);
      assert [] + [Raise] == [Raise];
      NoMoves(s, q, lower);
      OvertakenIsNoPrefix(s, e, After(raised, rest, q, lower));
    } else {
      FirstRaiseSettles(s, q, lower);
      forall moves
        ensures var t := After(raised, moves, q, lower); t.written <= t.matched
      {
        SettledStays(raised, moves, q, lower);
        PrefixBeforeDrop(After(raised, moves, q, lower));
      }
    }
  }

  lemma OvertakenIsNoPrefix(s: State, e: Event, t: State)
    requires s.firstDrop.Some? && s.firstDrop.value < |s.matched| && e != s.matched[s.firstDrop.value]
    requires t.matched == s.matched + [e] && t.written == t.matched[..s.firstDrop.value] + [e]
    ensures !(t.written <= t.matched)
  {
    var n := s.firstDrop.value;
    assert t.written[n] == e && t.matched[n] == s.matched[n];
  }

  lemma Locked(s: State, m: Move, q: Query, lower: Folding)
    requires s.dropping && !m.Raise?
    ensures var t := Next(s, m, q, lower); t.dropping && t.accepted == s.accepted
  {
    hide Match;
  }

  /** Between a drop and the raising of the flag only the reader moves. To catch up it must write
      everything the full channel held. */
  lemma {:induction false} CatchingUpTakesAll(s: State, moves: seq<Move>, q: Query, lower: Folding)
    requires Valid(s) && s.dropping && |s.buffer| == CLIENT_BUFFER && s.phase != Done
    requires forall m | m in moves :: !m.Raise?
    ensures var t := After(s, moves, q, lower);
            && Valid(t) && t.dropping && t.accepted == s.accepted
            && (CaughtUp(t) ==> |t.written| >= |s.written| + CLIENT_BUFFER)
  {
    hide Next;
    if moves != [] {
      var init, last := moves[..|moves| - 1], moves[|moves| - 1];
      assert moves == init + [last];
      CatchingUpTakesAll(s, init, q, lower);
      NextValid(After(s, init, q, lower), last, q, lower);
      Locked(After(s, init, q, lower), last, q, lower);
    }
  }

  /** Every drop is followed at once by the raising of the flag. */
  ghost predicate AtOnce(s: State, moves: seq<Move>, q: Query, lower: Folding) {
    moves == [] ||
    (var init := moves[..|moves| - 1];
     AtOnce(s, init, q, lower) && (After(s, init, q, lower).dropping ==> moves[|moves| - 1].Raise?))
  }

  lemma DropMeansFull(s: State, m: Move, q: Query, lower: Folding)
    requires Valid(s) && (s.dropping ==> m.Raise?)
    ensures Next(s, m, q, lower).dropping ==> |Next(s, m, q, lower).buffer| == CLIENT_BUFFER
  {
    hide Match;
  }

  /** If no reader's step falls between a drop and the raising of the flag, the reader is never
      caught up then, so nothing is ever written past a drop. */
  lemma {:induction false} AtOnceNeverCaughtUp(hubClosed: bool, moves: seq<Move>, q: Query, lower: Folding)
    requires AtOnce(Subscribed(hubClosed), moves, q, lower)
    ensures NeverCaughtUp(Subscribed(hubClosed), moves, q, lower)
    ensures var t := After(Subscribed(hubClosed), moves, q, lower); t.dropping ==> |t.buffer| == CLIENT_BUFFER
  {
    hide Next;
    hide Valid;
    if moves != [] {
      var init := moves[..|moves| - 1];
      AtOnceNeverCaughtUp(hubClosed, init, q, lower);
      AfterValid(hubClosed, init, q, lower);
      DropMeansFull(After(Subscribed(hubClosed), init, q, lower), moves[|moves| - 1], q, lower);
    }
  }

  // ---- such a schedule -------------------------------------------------------

  function Times(e: Event, n: nat): seq<Event> {
    if n == 0 then [] else Times(e, n - 1) + [e]
  }

  function Offers(e: Event, n: nat): seq<Move> {
    if n == 0 then [] else Offers(e, n - 1) + [Offer(e)]
  }

  function Reads(n: nat): seq<Move> {
    if n == 0 then [] else Reads(n - 1) + [Receive] + [Write] + [Look]
  }

  lemma {:induction false} TimesLength(e: Event, n: nat)
    ensures |Times(e, n)| == n && forall i | 0 <= i < n :: Times(e, n)[i] == e
  {
    if n > 0 {
      TimesLength(e, n - 1);
    }
  }

  lemma {:induction false} AfterMore(s: State, a: seq<Move>, b: seq<Move>, q: Query, lower: Folding)
    ensures After(s, a + b, q, lower) == After(After(s, a, q, lower), b, q, lower)
  {
    hide Next;
    if b == [] {
      assert a + b == a;
    } else {
      AfterMore(s, a, b[..|b| - 1], q, lower);
      assert (a + b)[..|a + b| - 1] == a + b[..|b| - 1];
    }
  }

  /** A publisher that the reader does not keep up with. */
  function Filled(e: Event, n: nat): State {
    State(false, false, true, true, false, Times(e, n), Idle, Times(e, n), Times(e, n), None, [])
  }

  lemma {:induction false} OffersFill(e: Event, n: nat, q: Query, lower: Folding)
    requires Match(e, q, lower) && n <= CLIENT_BUFFER
    ensures After(Subscribed(false), Offers(e, n), q, lower) == Filled(e, n)
  {
    hide Match;
    if n > 0 {
      OffersFill(e, n - 1, q, lower);
      AfterOne(Subscribed(false), Offers(e, n - 1), Offer(e), q, lower);
      TimesLength(e, n - 1);
    }
  }

  /** The reader has taken k events since the drop. */
  function Drained(e: Event, k: nat): State
    requires k <= CLIENT_BUFFER
  {
    State(false, true, true, true, false, Times(e, CLIENT_BUFFER - k), Idle,
          Times(e, CLIENT_BUFFER) + [e], Times(e, CLIENT_BUFFER), Some(CLIENT_BUFFER), Times(e, k))
  }

  lemma ReadDrains(e: Event, k: nat, q: Query, lower: Folding)
    requires 0 < k <= CLIENT_BUFFER
    ensures After(Drained(e, k - 1), [Receive] + [Write] + [Look], q, lower) == Drained(e, k)
  {
    var s := Drained(e, k - 1);
    AfterOne(s, [], Receive, q, lower);
    AfterOne(s, [Receive], Write, q, lower);
    AfterOne(s, [Receive] + [Write], Look, q, lower);
    assert [] + [Receive] == [Receive];
    hide After;
    assert After(s, [], q, lower) == s by { NoMoves(s, q, lower); }
    var n := CLIENT_BUFFER - k;
    TimesLength(e, n);
    TimesLength(e, n + 1);
    assert Times(e, n + 1)[0] == e && Times(e, n + 1)[1..] == Times(e, n);
  }

  lemma NoMoves(s: State, q: Query, lower: Folding)
    ensures After(s, [], q, lower) == s
  {}

  lemma {:induction false} ReadsDrain(e: Event, k: nat, q: Query, lower: Folding)
    requires k <= CLIENT_BUFFER
    ensures After(Drained(e, 0), Reads(k), q, lower) == Drained(e, k)
  {
    hide Drained;
    hide After;
    if k == 0 {
      NoMoves(Drained(e, 0), q, lower);
    } else {
      var three := [Receive] + [Write] + [Look];
      ReadsDrain(e, k - 1, q, lower);
      assert Reads(k) == Reads(k - 1) + three;
      AfterMore(Drained(e, 0), Reads(k - 1), three, q, lower);
      ReadDrains(e, k, q, lower);
    }
  }

  lemma OneMore(e: Event, q: Query, lower: Folding)
    requires Match(e, q, lower)
    ensures After(Subscribed(false), Offers(e, CLIENT_BUFFER + 1), q, lower) == Drained(e, 0)
  {
    hide Match;
    hide After;
    hide Times;
    var n := CLIENT_BUFFER;
    OffersFill(e, n, q, lower);
    assert Offers(e, n + 1) == Offers(e, n) + [Offer(e)];
    hide Offers;
    AfterOne(Subscribed(false), Offers(e, n), Offer(e), q, lower);
    TimesLength(e, n);
    NoneTaken(e);
  }

  lemma NoneTaken(e: Event)
    ensures Times(e, 0) == []
  {}

  /** A schedule in which an event overtakes a dropped one: the reader drains the whole channel
      between the drop and the raising of the flag. */
  lemma DropOvertaken(e: Event, later: Event, q: Query, lower: Folding)
    requires Match(e, q, lower) && Match(later, q, lower) && e != later
    ensures var moves := Offers(e, CLIENT_BUFFER + 1) + Reads(CLIENT_BUFFER) + [Raise, Offer(later), Receive, Write];
            var t := After(Subscribed(false), moves, q, lower);
            && t.matched == Times(e, CLIENT_BUFFER) + [e, later]
            && t.written == Times(e, CLIENT_BUFFER) + [later]
            && !(t.written <= t.matched)
  {
    hide Match;
    hide Times;
    hide Offers;
    hide Reads;
    hide After;
    var full, drain, last := Offers(e, CLIENT_BUFFER + 1), Reads(CLIENT_BUFFER), [Raise, Offer(later), Receive, Write];
    OneMore(e, q, lower);
    TimesLength(e, CLIENT_BUFFER);
    NoneTaken(e);
    ReadsDrain(e, CLIENT_BUFFER, q, lower);
    AfterMore(Subscribed(false), full, drain, q, lower);
    AfterMore(Subscribed(false), full + drain, last, q, lower);
    var s := Drained(e, CLIENT_BUFFER);
    assert s.matched[..CLIENT_BUFFER] == Times(e, CLIENT_BUFFER);
    assert Valid(s);
    CaughtUpWritesPastDrop(s, later, q, lower);
    var t := After(s, last, q, lower);
    assert t.matched[..CLIENT_BUFFER] == Times(e, CLIENT_BUFFER);
    assert t.matched[CLIENT_BUFFER] == e && t.written[CLIENT_BUFFER] == later;
  }
}
