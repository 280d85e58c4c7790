/** Whole runs of a service watch (watch/watch.go). The blocking queries, the clock and the two
    ways of being told to end are inputs; the state of the loop is a function of the inputs so
    far, and what it sends is determined up to the order within one comparison. */
module WatchRun {
  import opened Wrappers
  import opened Timeline
  import opened Catalog
  import opened Diffs
  import opened Compare
  import opened Sequences

  /** How the pause after an error ends. */
  datatype Wake = Elapsed | Interrupted

  /** What one round of the loop meets. */
  datatype Input =
    | Stopped(at: int)                                            // the service left the catalog
    | Cancelled
    | Failed(wake: Wake)
    | Fetched(index: nat, nodes: seq<Registration>, at: int)

  datatype Loop = Loop(index: nat, last: seq<Registration>, marks: Marks, first: bool)

  const START := Loop(0, [], map[], true)

  /** The catalog's index may go back, after which the watch starts over. */
  function NextIndex(prev: nat, got: nat): nat {
    if got < prev then 0 else got
  }

  /** The comparison a round makes, if any. */
  function Compared(l: Loop, input: Input): Option<Step> {
    match input
    case Stopped(at) => if |l.last| > 0 then Some(Step(at, l.index, l.last, [])) else None
    case Fetched(index, nodes, at) =>
      if !l.first && index != l.index then Some(Step(at, index, l.last, nodes)) else None
    case _ => None
  }

  function Next(cfg: Config, l: Loop, input: Input): Loop
  {
    var marks := if Compared(l, input).Some? then MarksAfter(cfg, Compared(l, input).value, l.marks)
                 else if input.Fetched? then RememberAll(cfg, l.marks, input.at, input.nodes, l.first)
                 else l.marks;
    match input
    case Stopped(_) => l.(last := [], marks := marks)
    case Fetched(index, nodes, _) => Loop(NextIndex(l.index, index), nodes, marks, false)
    case _ => l
  }

  /** The rounds after which the loop returns. */
  predicate Ends(input: Input) {
    input.Stopped? || input.Cancelled? || (input.Failed? && input.wake.Interrupted?)
  }

  ghost predicate Emits(cfg: Config, l: Loop, input: Input, batch: seq<Event>) {
    match Compared(l, input)
    case Some(s) => Reports(batch, ServiceChanges(cfg, s), CELL, Every())
    case None => batch == []
  }

  ghost predicate Sends(cfg: Config, l: Loop, input: Input, sent: seq<Announcement>)
  {
    match Compared(l, input)
    case Some(s) => Reports(sent, Announces(cfg, s, l.marks), ANNOUNCED, Every())
    case None => sent == if input.Fetched? then SentAll(cfg, l.marks, input.at, input.nodes, l.first) else []
  }

  function After(cfg: Config, inputs: seq<Input>): Loop
  {
    if inputs == [] then START else Next(cfg, After(cfg, inputs[..|inputs| - 1]), inputs[|inputs| - 1])
  }

  /** What a run may emit: one batch per round. */
  ghost predicate Emitted(cfg: Config, inputs: seq<Input>, batches: seq<seq<Event>>)
  {
    |batches| == |inputs| && forall i | 0 <= i < |inputs| :: Emits(cfg, After(cfg, inputs[..i]), inputs[i], batches[i])
  }

  ghost predicate Announced(cfg: Config, inputs: seq<Input>, lists: seq<seq<Announcement>>)
  {
    |lists| == |inputs| && forall i | 0 <= i < |inputs| :: Sends(cfg, After(cfg, inputs[..i]), inputs[i], lists[i])
  }

  /** A query that returns at the index it was asked for timed out without a change. */
  ghost predicate Unchanged(l: Loop, input: Input) {
    input.Fetched? && !l.first && input.index == l.index ==>
      Index(input.nodes) == Index(l.last) && Healthy(input.nodes) == Healthy(l.last)
  }

  /** No round follows one that ended the loop. */
  ghost predicate Going(inputs: seq<Input>) {
    forall i | 0 <= i < |inputs| - 1 :: !Ends(inputs[i])
  }

  /** That is, the loop goes on after fetches, and after errors that it slept through. */
  lemma GoesOn(inputs: seq<Input>)
    ensures Going(inputs) <==> forall i | 0 <= i < |inputs| - 1 :: inputs[i].Fetched? || inputs[i] == Failed(Elapsed)
  {}

  ghost predicate Honest(cfg: Config, inputs: seq<Input>)
  {
    forall i | 0 <= i < |inputs| :: Unchanged(After(cfg, inputs[..i]), inputs[i])
  }

  /** A round that announces a snapshot as it is crashes on a nil node or service, which a
      comparison skips. */
  ghost predicate Crashes(l: Loop, input: Input) {
    input.Fetched? && Compared(l, input).None? && !AllComplete(input.nodes)
  }

  /** That is, on the first fetch and on those that time out. */
  lemma CrashesExactly(l: Loop, input: Input)
    ensures Crashes(l, input) <==>
              && input.Fetched? && (l.first || input.index == l.index)
              && exists i :: 0 <= i < |input.nodes| && (input.nodes[i].node.None? || input.nodes[i].service.None?)
  {
    if input.Fetched? {
      assert forall i | 0 <= i < |input.nodes| ::
          Complete(input.nodes[i]) <==> input.nodes[i].node.Some? && input.nodes[i].service.Some?;
    }
  }

  ghost predicate Safe(cfg: Config, inputs: seq<Input>) {
    forall i | 0 <= i < |inputs| :: !Crashes(After(cfg, inputs[..i]), inputs[i])
  }

  /** How many entries come before the first incomplete one. */
  function CompleteRun(s: seq<Registration>): (n: nat)
    ensures n <= |s| && (forall i | 0 <= i < n :: Complete(s[i])) && (n < |s| ==> !Complete(s[n]))
  {
    if s == [] || !Complete(s[0]) then 0 else 1 + CompleteRun(s[1..])
  }

  /** What a crashing round has sent before it crashes. */
  function SentBeforeCrash(cfg: Config, l: Loop, input: Input): seq<Announcement>
    requires input.Fetched?
  {
    SentAll(cfg, l.marks, input.at, input.nodes[..CompleteRun(input.nodes)], l.first)
  }

  /** A run of the loop over a catalog that keeps its word, with what it emitted. */
  ghost predicate Ran(cfg: Config, inputs: seq<Input>, batches: seq<seq<Event>>) {
    Going(inputs) && Honest(cfg, inputs) && Emitted(cfg, inputs, batches)
  }

  lemma RunInit(cfg: Config, inputs: seq<Input>, batches: seq<seq<Event>>)
    requires inputs != [] && Ran(cfg, inputs, batches)
    ensures var n := |inputs| - 1;
            && Ran(cfg, inputs[..n], batches[..n])
            && Emits(cfg, After(cfg, inputs[..n]), inputs[n], batches[n])
            && Unchanged(After(cfg, inputs[..n]), inputs[n])
  {
    hide After;
    hide Emits;
    hide Unchanged;
    var n := |inputs| - 1;
    forall i | 0 <= i < n
      ensures inputs[..n][..i] == inputs[..i]
    {
      PrefixOfPrefix(inputs, i);
    }
  }

  // ---- replay ----------------------------------------------------------------

  function FirstSnapshot(inputs: seq<Input>): seq<Registration> {
    if inputs == [] then []
    else if inputs[0].Fetched? then inputs[0].nodes
    else FirstSnapshot(inputs[1..])
  }

  /** The last snapshot fetched. */
  function LastSnapshot(inputs: seq<Input>): seq<Registration> {
    if inputs == [] then []
    else if inputs[|inputs| - 1].Fetched? then inputs[|inputs| - 1].nodes
    else LastSnapshot(inputs[..|inputs| - 1])
  }

  predicate AnyFetched(inputs: seq<Input>) {
    exists i | 0 <= i < |inputs| :: inputs[i].Fetched?
  }

  /** The instances in every snapshot so far. */
  ghost predicate Throughout(key: Key, inputs: seq<Input>) {
    forall i | 0 <= i < |inputs| && inputs[i].Fetched? :: key in Index(inputs[i].nodes)
  }

  ghost function Steady(inputs: seq<Input>): set<Key> {
    set key | key in Index(FirstSnapshot(inputs)).Keys && Throughout(key, inputs)
  }

  lemma {:induction false} FirstSnapshotKept(inputs: seq<Input>)
    requires inputs != []
    ensures AnyFetched(inputs[..|inputs| - 1]) ==> FirstSnapshot(inputs) == FirstSnapshot(inputs[..|inputs| - 1])
    ensures !AnyFetched(inputs[..|inputs| - 1]) ==>
              FirstSnapshot(inputs) == if inputs[|inputs| - 1].Fetched? then inputs[|inputs| - 1].nodes else []
  {
    var init := inputs[..|inputs| - 1];
    if |inputs| > 1 {
      if !inputs[0].Fetched? {
        FirstSnapshotKept(inputs[1..]);
        assert inputs[1..][..|inputs| - 2] == init[1..];
        assert AnyFetched(init) <==> AnyFetched(init[1..]) by {
          if i :| 0 <= i < |init| && init[i].Fetched? {
            assert init[1..][i - 1].Fetched?;
          }
        }
      } else {
        assert init[0].Fetched?;
      }
    }
  }

  lemma AnyFetchedInit(inputs: seq<Input>)
    requires inputs != []
    ensures AnyFetched(inputs) <==> AnyFetched(inputs[..|inputs| - 1]) || inputs[|inputs| - 1].Fetched?
  {
    var init := inputs[..|inputs| - 1];
    if AnyFetched(init) {
      var i :| 0 <= i < |init| && init[i].Fetched?;
      assert inputs[i].Fetched?;
    }
    if AnyFetched(inputs) {
      var i :| 0 <= i < |inputs| && inputs[i].Fetched?;
      assert i < |init| ==> init[i].Fetched?;
    }
  }

  /** Unless it was stopped, the loop knows the last snapshot. */
  lemma {:induction false} LoopKnows(cfg: Config, inputs: seq<Input>)
    requires forall i | 0 <= i < |inputs| :: !inputs[i].Stopped?
    ensures After(cfg, inputs).last == LastSnapshot(inputs) && (After(cfg, inputs).first <==> !AnyFetched(inputs))
  {
    hide Index;
    hide MarksAfter;
    hide RememberAll;
    hide AnyFetched;
    if inputs != [] {
      LoopKnows(cfg, inputs[..|inputs| - 1]);
      AnyFetchedInit(inputs);
    } else {
      NothingFetched();
    }
  }

  lemma NothingFetched()
    ensures !AnyFetched([])
  {}

  lemma {:induction false} LastSnapshotFetched(inputs: seq<Input>)
    requires AnyFetched(inputs)
    ensures exists i | 0 <= i < |inputs| :: inputs[i].Fetched? && inputs[i].nodes == LastSnapshot(inputs)
  {
    var n := |inputs| - 1;
    AnyFetchedInit(inputs);
    if !inputs[n].Fetched? {
      LastSnapshotFetched(inputs[..n]);
      var i :| 0 <= i < n && inputs[..n][i].Fetched? && inputs[..n][i].nodes == LastSnapshot(inputs[..n]);
      assert inputs[i].Fetched?;
    }
  }

  lemma ReplayNothing(p: Picture)
    ensures Follow(p, []) == p
  {}

  /** One round keeps the picture right. */
  lemma RoundReplays(cfg: Config, l: Loop, input: Input, batch: seq<Event>, p: Picture, keys: set<Key>, kept: set<Key>)
    requires !l.first && Emits(cfg, l, input, batch) && Unchanged(l, input)
    requires ShowsInstances(p, l.last) && ShowsChecks(p, l.last, keys) && kept <= keys && kept <= Index(l.last).Keys
    ensures ShowsInstances(Follow(p, batch), Next(cfg, l, input).last)
    ensures ShowsChecks(Follow(p, batch), Next(cfg, l, input).last, kept)
  {
    hide Index;
    hide CheckStatus;
    hide ServiceChanges;
    hide Reports;
    hide MarksAfter;
    hide RememberAll;
    match Compared(l, input)
    case Some(s) =>
      hide Follow;
      DiffReplays(cfg, s, batch, p, kept);
    case None =>
      ReplayNothing(p);
  }

  lemma FirstRound(cfg: Config, l: Loop, input: Input, batch: seq<Event>)
    requires l.first && l.last == [] && Emits(cfg, l, input, batch)
    ensures batch == []
    ensures input.Fetched? ==> Next(cfg, l, input).last == input.nodes
  {}

  /** Until the first fetch nothing is reported. */
  lemma {:induction false} NothingBeforeFirst(cfg: Config, inputs: seq<Input>, batches: seq<seq<Event>>)
    requires Ran(cfg, inputs, batches) && !AnyFetched(inputs)
    ensures Concat(batches) == []
  {
    hide Emits;
    hide Next;
    hide After;
    if inputs != [] {
      var n := |inputs| - 1;
      RunInit(cfg, inputs, batches);
      assert !AnyFetched(inputs[..n]) by { AnyFetchedInit(inputs); }
      NothingBeforeFirst(cfg, inputs[..n], batches[..n]);
      KnowsBefore(cfg, inputs);
      FirstRound(cfg, After(cfg, inputs[..n]), inputs[n], batches[n]);
      ConcatLast(batches);
    }
  }

  lemma {:induction false} NoSnapshot(inputs: seq<Input>)
    requires !AnyFetched(inputs)
    ensures LastSnapshot(inputs) == []
  {
    if inputs != [] {
      assert !inputs[|inputs| - 1].Fetched?;
      AnyFetchedInit(inputs);
      NoSnapshot(inputs[..|inputs| - 1]);
    }
  }

  /** At every round the loop knows the last snapshot fetched before it. */
  lemma KnowsBefore(cfg: Config, inputs: seq<Input>)
    requires Going(inputs) && inputs != []
    ensures var init := inputs[..|inputs| - 1];
            && After(cfg, init).last == LastSnapshot(init)
            && (After(cfg, init).first <==> !AnyFetched(init))
            && (After(cfg, init).first ==> After(cfg, init).last == [])
  {
    hide After;
    var init := inputs[..|inputs| - 1];
    forall i | 0 <= i < |init|
      ensures !init[i].Stopped?
    {
      assert !Ends(inputs[i]);
    }
    LoopKnows(cfg, init);
    if !AnyFetched(init) {
      NoSnapshot(init);
    }
  }

  /** An instance that never left was in the previous snapshot. */
  lemma SteadyShrinks(inputs: seq<Input>)
    requires inputs != [] && AnyFetched(inputs[..|inputs| - 1])
    ensures var init := inputs[..|inputs| - 1];
            Steady(inputs) <= Steady(init) && Steady(inputs) <= Index(LastSnapshot(init)).Keys
  {
    hide Index;
    hide LastSnapshot;
    var init := inputs[..|inputs| - 1];
    FirstSnapshotKept(inputs);
    LastSnapshotFetched(init);
    forall key | Throughout(key, inputs)
      ensures Throughout(key, init) && key in Index(LastSnapshot(init))
    {
      assert forall i | 0 <= i < |init| :: init[i] == inputs[i];
    }
  }

  lemma SteadyAtFirst(inputs: seq<Input>)
    ensures Steady(inputs) <= Index(FirstSnapshot(inputs)).Keys
  {}

  lemma ShowsFewer(p: Picture, s: seq<Registration>, keys: set<Key>, fewer: set<Key>)
    requires ShowsChecks(p, s, keys) && fewer <= keys
    ensures ShowsChecks(p, s, fewer)
  {}

  /** Over any run (errors, index resets, timeouts), replaying every event emitted on top of the
      first snapshot shows exactly the instances of the last one, and the check statuses of every
      instance that never left. A stopped watch ends with an empty picture. */
  lemma {:induction false} RunReplays(cfg: Config, inputs: seq<Input>, batches: seq<seq<Event>>, p: Picture)
    requires Ran(cfg, inputs, batches) && AnyFetched(inputs)
    requires var s := FirstSnapshot(inputs); ShowsInstances(p, s) && ShowsChecks(p, s, Index(s).Keys)
    ensures var l := After(cfg, inputs);
            && ShowsInstances(Follow(p, Concat(batches)), l.last)
            && ShowsChecks(Follow(p, Concat(batches)), l.last, Steady(inputs))
  {
    hide Index;
    hide ShowsInstances;
    hide ShowsChecks;
    hide Emits;
    hide Next;
    hide Unchanged;
    hide Steady;
    hide AnyFetched;
    hide FirstSnapshot;
    var n := |inputs| - 1;
    NothingFetched();
    var init := inputs[..n];
    RunInit(cfg, inputs, batches);
    ConcatLast(batches);
    FirstSnapshotKept(inputs);
    KnowsBefore(cfg, inputs);
    if AnyFetched(init) {
      RunReplays(cfg, init, batches[..n], p);
      SteadyShrinks(inputs);
      var before := Follow(p, Concat(batches[..n]));
      RoundReplays(cfg, After(cfg, init), inputs[n], batches[n], before, Steady(init), Steady(inputs));
      ReplayConcat(p, Concat(batches[..n]), batches[n], CELL, LEFT);
    } else {
      AnyFetchedInit(inputs);
      NothingBeforeFirst(cfg, init, batches[..n]);
      FirstRound(cfg, After(cfg, init), inputs[n], batches[n]);
      ReplayNothing(p);
      SteadyAtFirst(inputs);
      ShowsFewer(p, inputs[n].nodes, Index(inputs[n].nodes).Keys, Steady(inputs));
    }
  }

  /** A watch that ended leaves an empty picture exactly when it left through the stop signal or
      knew no instance: ended during the pause after an error, or cancelled, it says nothing. */
  lemma EndsEmpty(cfg: Config, inputs: seq<Input>, batches: seq<seq<Event>>, p: Picture)
    requires Ran(cfg, inputs, batches) && AnyFetched(inputs) && Ends(inputs[|inputs| - 1])
    requires var s := FirstSnapshot(inputs); ShowsInstances(p, s) && ShowsChecks(p, s, Index(s).Keys)
    ensures (forall key :: Whole(key) !in Follow(p, Concat(batches))) <==>
            inputs[|inputs| - 1].Stopped? || Index(LastSnapshot(inputs)).Keys == {}
  {
    hide Follow;
    hide Steady;
    hide Concat;
    RunReplays(cfg, inputs, batches, p);
    KnowsBefore(cfg, inputs);
    var l := After(cfg, inputs);
    if !inputs[|inputs| - 1].Stopped? {
      assert l.last == LastSnapshot(inputs);
      assert forall key :: Whole(key) in Follow(p, Concat(batches)) <==> key in Index(l.last).Keys;
    } else {
      assert l.last == [];
    }
  }

  /** The stop signal reports every instance still known as missing, once, and nothing else. */
  lemma StopReportsAll(cfg: Config, l: Loop, at: int, batch: seq<Event>)
    requires Emits(cfg, l, Stopped(at), batch)
    ensures forall e | e in batch ::
              && e.kind == KIND_INSTANCE && e.newServiceStatus == STATUS_MISSING && e.newHealthy == 0
              && e.totalInstances == 0
              && (e.nodeName, e.serviceID) in Index(l.last)
    ensures forall key | key in Index(l.last) :: exists e | e in batch :: CellOf(e) == Whole(key)
    ensures forall i, j | 0 <= i < j < |batch| :: CellOf(batch[i]) != CellOf(batch[j])
  {
    if l.last == [] {
    } else {
      var s := Step(at, l.index, l.last, []);
      var changes := ServiceChanges(cfg, s);
      forall e | e in batch
        ensures e.kind == KIND_INSTANCE && e.newServiceStatus == STATUS_MISSING && e.newHealthy == 0
                && e.totalInstances == 0
        ensures (e.nodeName, e.serviceID) in Index(l.last)
      {
        assert changes(CELL(e)) == Some(e);
        hide CheckIndex;
        hide FirstSet;
      }
      forall key | key in Index(l.last)
        ensures exists e | e in batch :: CellOf(e) == Whole(key)
      {
        assert Whole(key) in Every<Cell>();
        assert changes(Whole(key)).value in batch;
        hide CheckIndex;
        hide FirstSet;
        ServiceChangeFiled(cfg, s, Whole(key));
      }
      forall i, j | 0 <= i < j < |batch|
        ensures CellOf(batch[i]) != CellOf(batch[j])
      {
        assert CELL(batch[i]) != CELL(batch[j]);
      }
    }
  }

  lemma EventCounts(cfg: Config, s: Step, cell: Cell)
    requires ServiceChange(cfg, s, cell).Some?
    ensures var e := ServiceChange(cfg, s, cell).value;
            && e.oldHealthy == Healthy(s.was) && e.newHealthy == Healthy(s.now) && e.totalInstances == |s.now|
            && e.time == s.at
  {
    hide Index;
    hide CheckIndex;
    hide Attached;
    hide Healthy;
    hide FirstSet;
    hide Instance.Status;
  }

  /** Every event says how many instances were healthy in the snapshot fetched before, whatever
      errors and resets lie between, and how many are in the one it reports. */
  lemma HealthChained(cfg: Config, inputs: seq<Input>, batches: seq<seq<Event>>, i: nat, e: Event)
    requires Ran(cfg, inputs, batches) && i < |inputs| && e in batches[i]
    ensures AnyFetched(inputs[..i]) && e.oldHealthy == Healthy(LastSnapshot(inputs[..i]))
    ensures inputs[i].Fetched? ==> e.newHealthy == Healthy(inputs[i].nodes) && e.totalInstances == |inputs[i].nodes|
    ensures inputs[i].Stopped? ==> e.newHealthy == 0 && e.totalInstances == 0
    ensures inputs[i].Fetched? || inputs[i].Stopped?
  {
    hide ServiceChange;
    hide Index;
    var upTo := inputs[..i + 1];
    assert upTo[..i] == inputs[..i];
    forall k | 0 <= k < i
      ensures !Ends(upTo[k])
    {
      assert !Ends(inputs[k]);
    }
    KnowsBefore(cfg, upTo);
    var l := After(cfg, inputs[..i]);
    hide After;
    assert Emits(cfg, l, inputs[i], batches[i]);
    var s := Compared(l, inputs[i]).value;
    assert ServiceChanges(cfg, s)(CELL(e)) == Some(e);
    EventCounts(cfg, s, CELL(e));
  }

  /** An event comes from a comparison with the snapshot fetched before. */
  lemma EventCompared(cfg: Config, inputs: seq<Input>, batches: seq<seq<Event>>, i: nat, e: Event)
    requires Ran(cfg, inputs, batches) && i < |inputs| && |batches| == |inputs| && e in batches[i]
    ensures AnyFetched(inputs[..i]) && (inputs[i].Fetched? || inputs[i].Stopped?)
    ensures var l := After(cfg, inputs[..i]);
            && l.last == LastSnapshot(inputs[..i])
            && Compared(l, inputs[i]).Some?
            && Reports(batches[i], ServiceChanges(cfg, Compared(l, inputs[i]).value), CELL, Every())
  {
    hide ServiceChange;
    hide Index;
    hide Reports;
    HealthChained(cfg, inputs, batches, i, e);
    var upTo := inputs[..i + 1];
    assert upTo[..i] == inputs[..i];
    forall k | 0 <= k < i
      ensures !Ends(upTo[k])
    {
      assert !Ends(inputs[k]);
    }
    KnowsBefore(cfg, upTo);
    var l := After(cfg, inputs[..i]);
    hide After;
    assert Emits(cfg, l, inputs[i], batches[i]);
  }

  /** Every event of a round is as said of the comparison of the snapshot fetched before, whatever
      errors and resets lie between, with the one the round fetched, or with nothing. */
  lemma EventsDescribe(cfg: Config, inputs: seq<Input>, batches: seq<seq<Event>>, i: nat, e: Event)
    requires Ran(cfg, inputs, batches) && i < |inputs| && |batches| == |inputs| && e in batches[i]
    ensures inputs[i].Fetched? || inputs[i].Stopped?
    ensures var now := if inputs[i].Fetched? then inputs[i].nodes else [];
            var index := if inputs[i].Fetched? then inputs[i].index else After(cfg, inputs[..i]).index;
            Describes(e, cfg, Step(inputs[i].at, index, LastSnapshot(inputs[..i]), now))
  {
    hide ServiceChange;
    hide Index;
    hide Describes;
    hide Ran;
    EventCompared(cfg, inputs, batches, i, e);
    var s := Compared(After(cfg, inputs[..i]), inputs[i]).value;
    hide After;
    assert ServiceChanges(cfg, s)(CELL(e)) == Some(e);
    ChangeDescribed(cfg, s, CELL(e));
  }

  lemma {:induction false} RunPrefix(cfg: Config, inputs: seq<Input>, batches: seq<seq<Event>>, k: nat)
    requires Ran(cfg, inputs, batches) && k <= |inputs|
    ensures Ran(cfg, inputs[..k], batches[..k])
  {
    hide Ran;
    if k == |inputs| {
      assert inputs[..k] == inputs;
      assert batches[..k] == batches by { RanLength(cfg, inputs, batches); }
    } else {
      var n := |inputs| - 1;
      RunInit(cfg, inputs, batches);
      RanLength(cfg, inputs, batches);
      RunPrefix(cfg, inputs[..n], batches[..n], k);
      assert inputs[..n][..k] == inputs[..k] && batches[..n][..k] == batches[..k];
    }
  }

  lemma RanLength(cfg: Config, inputs: seq<Input>, batches: seq<seq<Event>>)
    requires Ran(cfg, inputs, batches)
    ensures |batches| == |inputs|
  {}

  lemma {:induction false} FirstSnapshotPrefix(inputs: seq<Input>, k: nat)
    requires k <= |inputs| && AnyFetched(inputs[..k])
    ensures FirstSnapshot(inputs[..k]) == FirstSnapshot(inputs)
  {
    hide FirstSnapshot;
    hide AnyFetched;
    if k == |inputs| {
      assert inputs[..k] == inputs;
    } else {
      var init := inputs[..|inputs| - 1];
      assert init[..k] == inputs[..k];
      FetchedStays(init, k);
      FirstSnapshotKept(inputs);
      FirstSnapshotPrefix(init, k);
    }
  }

  lemma FetchedStays(inputs: seq<Input>, k: nat)
    requires k <= |inputs| && AnyFetched(inputs[..k])
    ensures AnyFetched(inputs)
  {
    var i :| 0 <= i < k && inputs[..k][i].Fetched?;
    assert inputs[i].Fetched?;
  }

  lemma SteadyPresent(inputs: seq<Input>)
    requires AnyFetched(inputs)
    ensures Steady(inputs) <= Index(LastSnapshot(inputs)).Keys
  {
    hide Index;
    hide LastSnapshot;
    LastSnapshotFetched(inputs);
  }

  /** Over any run every event starts from what replaying all events before its comparison shows: a
      check event of an instance that never left from the last status known of the check, an
      instance event from whether the instance is there. */
  lemma RunTakes(cfg: Config, inputs: seq<Input>, batches: seq<seq<Event>>, p: Picture, i: nat, e: Event)
    requires Ran(cfg, inputs, batches) && i < |inputs| && |batches| == |inputs| && e in batches[i]
    requires var s := FirstSnapshot(inputs); ShowsInstances(p, s) && ShowsChecks(p, s, Index(s).Keys)
    ensures var before := Follow(p, Concat(batches[..i]));
            && (e.kind == KIND_CHECK && (e.nodeName, e.serviceID) in Steady(inputs[..i]) ==>
                  TakenFrom(e) == Lookup(before, CellOf(e)))
            && (e.kind == KIND_INSTANCE ==> (TakenFrom(e).Some? <==> CellOf(e) in before))
            && (e.kind == KIND_CHECK || e.kind == KIND_INSTANCE)
  {
    hide Index;
    hide ServiceChange;
    hide ShowsInstances;
    hide ShowsChecks;
    hide Follow;
    hide Steady;
    hide TakenFrom;
    hide CellOf;
    hide Ran;
    hide Reports;
    hide After;
    EventCompared(cfg, inputs, batches, i, e);
    FirstSnapshotPrefix(inputs, i);
    hide FirstSnapshot;
    RunPrefix(cfg, inputs, batches, i);
    RunReplays(cfg, inputs[..i], batches[..i], p);
    SteadyPresent(inputs[..i]);
    hide LastSnapshot;
    hide AnyFetched;
    var s := Compared(After(cfg, inputs[..i]), inputs[i]).value;
    DiffTakes(cfg, s, batches[i], Follow(p, Concat(batches[..i])), Steady(inputs[..i]), e);
  }

  /** Which of two successive fetches is compared: one that returns at the index asked for timed out
      and is not; after the index went back the watch asks from the start, so that whatever comes
      next is compared. */
  lemma ComparedExactly(cfg: Config, l: Loop, input: Input, next: Input)
    requires input.Fetched? && next.Fetched?
    ensures input.index >= l.index ==>
              (Compared(Next(cfg, l, input), next).Some? <==> next.index != input.index)
    ensures input.index < l.index ==> (Compared(Next(cfg, l, input), next).Some? <==> next.index > 0)
  {
    hide MarksAfter;
    hide RememberAll;
  }

  // ---- announcements ---------------------------------------------------------

  /** The marks are of exactly the current instances, at their current registrations. */
  ghost predicate Current(cfg: Config, l: Loop) {
    && l.marks.Keys == Index(l.last).Keys
    && forall key | key in l.marks :: l.marks[key].fingerprint == Fingerprint(cfg, Index(l.last)[key])
  }

  ghost predicate Recent(l: Loop, at: int) {
    forall key | key in l.marks :: at - l.marks[key].announced < INSTANCE_REFRESH
  }

  lemma {:induction false} RememberAllMark(cfg: Config, marks: Marks, at: int, s: seq<Registration>, force: bool,
                                           key: Key)
    ensures var mark := Lookup(RememberAll(cfg, marks, at, s, force), key);
            if key in Index(s) then
              && mark.Some? && mark.value.fingerprint == Fingerprint(cfg, Index(s)[key])
              && at - mark.value.announced < INSTANCE_REFRESH
            else mark == Lookup(marks, key)
  {
    hide Fingerprint;
    if s != [] {
      RememberAllMark(cfg, marks, at, s[..|s| - 1], force, key);
    }
  }

  lemma CompareMarks(cfg: Config, s: Step, marks: Marks)
    requires marks.Keys == Index(s.was).Keys
    ensures var after := MarksAfter(cfg, s, marks);
            && after.Keys == Index(s.now).Keys
            && forall key | key in after ::
                 && after[key].fingerprint == Fingerprint(cfg, Index(s.now)[key])
                 && s.at - after[key].announced < INSTANCE_REFRESH
  {
    var was, now := Index(s.was), Index(s.now);
    hide Fingerprint;
    forall key
      ensures key in MarksAfter(cfg, s, marks) <==> key in now
    {
      assert key in now ==> MarkAfter(cfg, s, marks, key).Some?;
      hide Index;
    }
    hide Index;
  }

  lemma RememberedCurrent(cfg: Config, l: Loop, input: Input)
    requires Unchanged(l, input) && Current(cfg, l) && (l.first ==> l.last == [])
    requires input.Fetched? && Compared(l, input).None?
    ensures Current(cfg, Next(cfg, l, input)) && Recent(Next(cfg, l, input), input.at)
  {
    hide Fingerprint;
    hide RememberAll;
    var after, now := Next(cfg, l, input).marks, Index(input.nodes);
    assert l.first ==> l.marks == map[];
    hide Index;
    forall key
      ensures key in after <==> key in now
      ensures key in now ==>
                && after[key].fingerprint == Fingerprint(cfg, now[key])
                && input.at - after[key].announced < INSTANCE_REFRESH
    {
      RememberAllMark(cfg, l.marks, input.at, input.nodes, l.first, key);
      assert Lookup(after, key) == Lookup(RememberAll(cfg, l.marks, input.at, input.nodes, l.first), key);
    }
  }

  lemma RoundMarks(cfg: Config, l: Loop, input: Input)
    requires Unchanged(l, input) && Current(cfg, l) && (l.first ==> l.last == [])
    ensures Current(cfg, Next(cfg, l, input))
    ensures input.Fetched? ==> Recent(Next(cfg, l, input), input.at)
  {
    hide MarksAfter;
    hide RememberAll;
    hide Fingerprint;
    match Compared(l, input)
    case Some(s) => CompareMarks(cfg, s, l.marks);
    case None =>
      if input.Fetched? {
        RememberedCurrent(cfg, l, input);
      }
  }

  /** After every round the watch has a mark for exactly the current instances, each with the
      current fingerprint; after every fetch no announcement is older than the refresh time. */
  lemma {:induction false} MarksCurrent(cfg: Config, inputs: seq<Input>)
    requires Honest(cfg, inputs) && Going(inputs)
    ensures Current(cfg, After(cfg, inputs))
    ensures inputs != [] && inputs[|inputs| - 1].Fetched? ==> Recent(After(cfg, inputs), inputs[|inputs| - 1].at)
  {
    hide Next;
    hide Current;
    hide Recent;
    hide Unchanged;
    if inputs == [] {
      StartCurrent(cfg);
    } else {
      var n := |inputs| - 1;
      HonestInit(cfg, inputs);
      MarksCurrent(cfg, inputs[..n]);
      KnowsBefore(cfg, inputs);
      RoundMarks(cfg, After(cfg, inputs[..n]), inputs[n]);
    }
  }

  lemma StartCurrent(cfg: Config)
    ensures Current(cfg, START)
  {}

  lemma HonestInit(cfg: Config, inputs: seq<Input>)
    requires inputs != [] && Honest(cfg, inputs) && Going(inputs)
    ensures var n := |inputs| - 1;
            Honest(cfg, inputs[..n]) && Going(inputs[..n]) && Unchanged(After(cfg, inputs[..n]), inputs[n])
  {
    hide After;
    hide Unchanged;
    var n := |inputs| - 1;
    forall i | 0 <= i < n
      ensures inputs[..n][..i] == inputs[..i]
    {
      PrefixOfPrefix(inputs, i);
    }
  }

  /** Whether a round sends the record of an instance. */
  predicate Announcing(cfg: Config, l: Loop, input: Input, key: Key)
  {
    && input.Fetched?
    && key in Index(input.nodes)
    && Due(cfg, l.marks, input.at, Index(input.nodes)[key],
           l.first || (Compared(l, input).Some? && key !in Index(l.last)))
  }

  ghost predicate SentFor(list: seq<Announcement>, key: Key) {
    exists a | a in list :: ANNOUNCED(a) == key
  }

  lemma SentForConcat(a: seq<Announcement>, b: seq<Announcement>, key: Key)
    ensures SentFor(a + b, key) <==> SentFor(a, key) || SentFor(b, key)
  {
    assert forall x | x in a :: x in a + b;
    assert forall x | x in b :: x in a + b;
  }

  lemma SentForOne(cfg: Config, marks: Marks, at: int, i: Instance, force: bool, key: Key)
    ensures SentFor(Sent(cfg, marks, at, i, force), key) <==> Due(cfg, marks, at, i, force) && key == i.Key()
  {
    hide FirstSet;
    hide Due;
    if Due(cfg, marks, at, i, force) {
      assert Record(cfg, at, i) in Sent(cfg, marks, at, i, force);
      assert forall a | a in Sent(cfg, marks, at, i, force) :: a == Record(cfg, at, i);
    }
  }

  /** With at most one entry per instance, each is announced if it was due at the start. */
  lemma {:induction false} SentAllAre(cfg: Config, marks: Marks, at: int, s: seq<Registration>, force: bool, key: Key)
    requires UniqueKeys(s)
    ensures SentFor(SentAll(cfg, marks, at, s, force), key)
            <==> key in Index(s) && Due(cfg, marks, at, Index(s)[key], force)
    ensures key in Index(s) ==>
              Lookup(RememberAll(cfg, marks, at, s, force), key)
              == Lookup(Remember(cfg, marks, at, Index(s)[key], force), key)
  {
    if s != [] {
      var init := s[..|s| - 1];
      SentAllAre(cfg, marks, at, init, force, key);
      if Complete(s[|s| - 1]) {
        var i := InstanceOf(s[|s| - 1]);
        LastEntry(s);
        hide Index;
        hide UniqueKeys;
        hide Fingerprint;
        RememberAllMark(cfg, marks, at, init, force, i.Key());
        var before := RememberAll(cfg, marks, at, init, force);
        SentForConcat(SentAll(cfg, marks, at, init, force), Sent(cfg, before, at, i, force), key);
        SentForOne(cfg, before, at, i, force, key);
        hide SentFor;
        assert Due(cfg, before, at, i, force) <==> Due(cfg, marks, at, i, force);
      }
    }
  }

  lemma LastEntry(s: seq<Registration>)
    requires UniqueKeys(s) && s != [] && Complete(s[|s| - 1])
    ensures var init, i := s[..|s| - 1], InstanceOf(s[|s| - 1]);
            UniqueKeys(init) && i.Key() !in Index(init) && Index(s) == Index(init)[i.Key() := i]
  {
    var init, last := s[..|s| - 1], s[|s| - 1];
    IndexFinds(init);
    hide Index;
    assert forall j | 0 <= j < |init| && Complete(s[j]) :: InstanceOf(s[j]).Key() != InstanceOf(last).Key();
  }

  /** Every indexed instance comes from an entry. */
  lemma {:induction false} IndexFinds(s: seq<Registration>)
    ensures forall key | key in Index(s) :: exists j | 0 <= j < |s| :: Complete(s[j]) && InstanceOf(s[j]).Key() == key
  {
    if s != [] {
      IndexFinds(s[..|s| - 1]);
    }
  }

  lemma ReportedFor(cfg: Config, s: Step, marks: Marks, sent: seq<Announcement>, key: Key)
    requires Reports(sent, Announces(cfg, s, marks), ANNOUNCED, Every())
    ensures SentFor(sent, key) <==> Announces(cfg, s, marks)(key).Some?
  {
    var change := Announces(cfg, s, marks);
    AnnouncesFiled(cfg, s, marks);
    hide Announces;
    assert key in Every<Key>();
    assert forall a | a in sent :: change(ANNOUNCED(a)) == Some(a);
  }

  lemma ComparedSends(cfg: Config, l: Loop, input: Input, s: Step, sent: seq<Announcement>, key: Key)
    requires Compared(l, input) == Some(s) && Sends(cfg, l, input, sent)
    ensures SentFor(sent, key) <==> Announcing(cfg, l, input, key)
    ensures input.Fetched? && key in Index(input.nodes) ==>
              Lookup(MarksAfter(cfg, s, l.marks), key) ==
              if Announcing(cfg, l, input, key) then Some(Mark(Fingerprint(cfg, Index(input.nodes)[key]), input.at))
              else Lookup(l.marks, key)
  {
    hide FirstSet;
    hide Fingerprint;
    hide Reports;
    ReportedFor(cfg, s, l.marks, sent, key);
    hide SentFor;
    assert input.Stopped? ==> key !in Index(s.now);
    hide Index;
  }

  /** A fetch sends the records that are due, and only the marks of those change. */
  lemma RoundSends(cfg: Config, l: Loop, input: Input, sent: seq<Announcement>, key: Key)
    requires Sends(cfg, l, input, sent) && (input.Fetched? ==> UniqueKeys(input.nodes))
    ensures SentFor(sent, key) <==> Announcing(cfg, l, input, key)
    ensures input.Fetched? && key in Index(input.nodes) ==>
              Lookup(Next(cfg, l, input).marks, key) ==
              if Announcing(cfg, l, input, key) then Some(Mark(Fingerprint(cfg, Index(input.nodes)[key]), input.at))
              else Lookup(l.marks, key)
  {
    hide FirstSet;
    hide Fingerprint;
    match Compared(l, input)
    case Some(s) => ComparedSends(cfg, l, input, s, sent, key);
    case None =>
      if input.Fetched? {
        SentAllAre(cfg, l.marks, input.at, input.nodes, l.first, key);
        hide RememberAll;
        hide SentAll;
        hide Index;
      }
  }

  lemma {:induction false} SentAllRecords(cfg: Config, marks: Marks, at: int, s: seq<Registration>, force: bool,
                                          a: Announcement)
    requires a in SentAll(cfg, marks, at, s, force)
    ensures exists i :: 0 <= i < |s| && Complete(s[i]) && RecordsInstance(a, cfg, at, InstanceOf(s[i]))
  {
    hide FirstSet;
    hide Due;
    var init, last := s[..|s| - 1], s[|s| - 1];
    if a in SentAll(cfg, marks, at, init, force) {
      SentAllRecords(cfg, marks, at, init, force, a);
      var i :| 0 <= i < |init| && Complete(init[i]) && RecordsInstance(a, cfg, at, InstanceOf(init[i]));
      assert Complete(s[i]) && RecordsInstance(a, cfg, at, InstanceOf(s[i]));
    } else {
      assert Complete(s[|s| - 1]) && RecordsInstance(a, cfg, at, InstanceOf(s[|s| - 1]));
    }
  }

  /** Whatever a round sends is the record of an entry it fetched, at the time of the fetch. */
  lemma RecordsSent(cfg: Config, l: Loop, input: Input, sent: seq<Announcement>, a: Announcement)
    requires Sends(cfg, l, input, sent) && a in sent
    ensures input.Fetched?
    ensures exists i :: 0 <= i < |input.nodes| && Complete(input.nodes[i])
                        && RecordsInstance(a, cfg, input.at, InstanceOf(input.nodes[i]))
  {
    hide FirstSet;
    hide Due;
    match Compared(l, input)
    case Some(s) =>
      var key := ANNOUNCED(a);
      assert Announces(cfg, s, l.marks)(key) == Some(a);
      IndexIsLast(s.now, key);
      hide Index;
      var i :| LastOfKey(s.now, i, key);
      assert Complete(s.now[i]) && RecordsInstance(a, cfg, s.at, InstanceOf(s.now[i]));
    case None =>
      SentAllRecords(cfg, l.marks, input.at, input.nodes, l.first, a);
  }

  /** A round that fetches an instance sends its record if the instance is new or its fingerprint
      changed since the snapshot before. */
  lemma ChangesAnnounced(cfg: Config, inputs: seq<Input>, i: nat, key: Key)
    requires Honest(cfg, inputs) && Going(inputs) && i < |inputs|
    requires inputs[i].Fetched? && key in Index(inputs[i].nodes)
    requires var before := Index(LastSnapshot(inputs[..i]));
             key in before ==> Fingerprint(cfg, before[key]) != Fingerprint(cfg, Index(inputs[i].nodes)[key])
    ensures Announcing(cfg, After(cfg, inputs[..i]), inputs[i], key)
  {
    hide Index;
    hide Fingerprint;
    hide Unchanged;
    var upTo := inputs[..i + 1];
    assert upTo[..i] == inputs[..i];
    forall k | 0 <= k < i
      ensures !Ends(upTo[k])
    {
      assert !Ends(inputs[k]);
    }
    KnowsBefore(cfg, upTo);
    HonestPrefix(cfg, inputs, i);
    hide After;
    hide Honest;
    MarksCurrent(cfg, inputs[..i]);
  }

  lemma HonestPrefix(cfg: Config, inputs: seq<Input>, k: nat)
    requires Honest(cfg, inputs) && Going(inputs) && k <= |inputs|
    ensures Honest(cfg, inputs[..k]) && Going(inputs[..k])
  {
    hide After;
    hide Unchanged;
    forall i | 0 <= i < k
      ensures inputs[..k][..i] == inputs[..i]
    {}
  }

  /** An instance that stays, with one fingerprint, between two rounds. */
  ghost predicate Stays(cfg: Config, inputs: seq<Input>, i: nat, j: nat, key: Key, fingerprint: int) {
    forall m | i <= m <= j && m < |inputs| && inputs[m].Fetched? ::
      && UniqueKeys(inputs[m].nodes) && key in Index(inputs[m].nodes)
      && Fingerprint(cfg, Index(inputs[m].nodes)[key]) == fingerprint
  }

  /** No announcement strictly between two rounds. */
  ghost predicate Quiet(cfg: Config, inputs: seq<Input>, i: nat, j: nat, key: Key)
    requires i < j < |inputs|
  {
    forall m | i < m < j :: !Announcing(cfg, After(cfg, inputs[..m]), inputs[m], key)
  }

  lemma Closer(cfg: Config, inputs: seq<Input>, i: nat, j: nat, key: Key, fingerprint: int)
    requires i < j - 1 && j < |inputs|
    requires Stays(cfg, inputs, i, j, key, fingerprint) && Quiet(cfg, inputs, i, j, key)
    ensures Stays(cfg, inputs, i, j - 1, key, fingerprint) && Quiet(cfg, inputs, i, j - 1, key)
    ensures var input := inputs[j - 1];
            input.Fetched? ==> key in Index(input.nodes) && UniqueKeys(input.nodes)
                               && !Announcing(cfg, After(cfg, inputs[..j - 1]), input, key)
  {
    hide Index;
    hide UniqueKeys;
    hide Fingerprint;
    hide Announcing;
    hide After;
  }

  lemma MarkKept(cfg: Config, l: Loop, input: Input, key: Key, mark: Mark)
    requires !Ends(input) && Lookup(l.marks, key) == Some(mark)
    requires input.Fetched? ==> key in Index(input.nodes) && UniqueKeys(input.nodes) && !Announcing(cfg, l, input, key)
    ensures Lookup(Next(cfg, l, input).marks, key) == Some(mark)
    ensures var after := Next(cfg, l, input);
            (input.Fetched? ==> !after.first && key in Index(after.last)) && (!input.Fetched? ==> after == l)
  {
    hide Index;
    hide UniqueKeys;
    hide Fingerprint;
    hide SentAll;
    hide RememberAll;
    if input.Fetched? {
      match Compared(l, input)
      case Some(s) =>
        var after := MarksAfter(cfg, s, l.marks);
        assert MarkAfter(cfg, s, l.marks, key) == Some(mark);
      case None => SentAllAre(cfg, l.marks, input.at, input.nodes, l.first, key);
    }
  }

  /** Two successive announcements of an instance that stayed unchanged are at least the refresh
      time apart, whatever errors, timeouts and index resets lie between them. */
  lemma RefreshSpaced(cfg: Config, inputs: seq<Input>, i: nat, j: nat, key: Key)
    requires Honest(cfg, inputs) && Going(inputs) && i < j < |inputs|
    requires inputs[i].Fetched? && key in Index(inputs[i].nodes)
    requires Stays(cfg, inputs, i, j, key, Fingerprint(cfg, Index(inputs[i].nodes)[key]))
    requires Announcing(cfg, After(cfg, inputs[..i]), inputs[i], key)
    requires Announcing(cfg, After(cfg, inputs[..j]), inputs[j], key)
    requires Quiet(cfg, inputs, i, j, key)
    ensures inputs[j].at - inputs[i].at >= INSTANCE_REFRESH
  {
    hide Index;
    hide UniqueKeys;
    hide Fingerprint;
    hide Next;
    var mark := Mark(Fingerprint(cfg, Index(inputs[i].nodes)[key]), inputs[i].at);
    MarkHeld(cfg, inputs, i, j, key, mark);
    assert inputs[j].nodes == inputs[j].nodes;
  }

  lemma {:induction false} MarkHeld(cfg: Config, inputs: seq<Input>, i: nat, j: nat, key: Key, mark: Mark)
    requires Going(inputs) && i < j < |inputs|
    requires inputs[i].Fetched? && key in Index(inputs[i].nodes)
    requires mark == Mark(Fingerprint(cfg, Index(inputs[i].nodes)[key]), inputs[i].at)
    requires Stays(cfg, inputs, i, j, key, mark.fingerprint)
    requires Announcing(cfg, After(cfg, inputs[..i]), inputs[i], key)
    requires Quiet(cfg, inputs, i, j, key)
    ensures var l := After(cfg, inputs[..j]); Lookup(l.marks, key) == Some(mark) && !l.first && key in Index(l.last)
  {
    hide Index;
    hide UniqueKeys;
    hide Fingerprint;
    hide Announcing;
    hide Quiet;
    hide Next;
    assert inputs[..j][..j - 1] == inputs[..j - 1];
    var l := After(cfg, inputs[..j - 1]);
    assert After(cfg, inputs[..j]) == Next(cfg, l, inputs[j - 1]);
    hide After;
    if i == j - 1 {
      AnnouncedMark(cfg, l, inputs[i], key);
    } else {
      Closer(cfg, inputs, i, j, key, mark.fingerprint);
      hide Stays;
      MarkHeld(cfg, inputs, i, j - 1, key, mark);
      assert !Ends(inputs[j - 1]);
      MarkKept(cfg, l, inputs[j - 1], key, mark);
    }
  }

  lemma AnnouncedMark(cfg: Config, l: Loop, input: Input, key: Key)
    requires input.Fetched? && UniqueKeys(input.nodes) && Announcing(cfg, l, input, key)
    ensures var after := Next(cfg, l, input);
            && Lookup(after.marks, key) == Some(Mark(Fingerprint(cfg, Index(input.nodes)[key]), input.at))
            && !after.first && key in Index(after.last)
  {
    hide UniqueKeys;
    hide Fingerprint;
    hide SentAll;
    hide RememberAll;
    match Compared(l, input)
    case Some(s) =>
      hide Index;
      assert MarkAfter(cfg, s, l.marks, key).Some?;
    case None => SentAllAre(cfg, l.marks, input.at, input.nodes, l.first, key);
  }
}
