/** The watch of one node (watch/watch.go, watch/compare.go): its own checks, over whole runs. */
module NodeRun {
  import opened Wrappers
  import opened Timeline
  import opened Catalog
  import opened Diffs
  import opened Compare
  import W = WatchRun
  import opened Watcher
  import opened Sequences
  import S = Startup

  /** What one round of the loop meets. */
  datatype Round =
    | Left(at: int)                                        // the node left the catalog
    | Cancelled
    | Failed(wake: W.Wake)
    | Fetched(index: nat, checks: seq<Check>, at: int)

  datatype Loop = Loop(index: nat, last: seq<Check>, first: bool)

  const START := Loop(0, [], true)

  function Base(datacenter: string, node: Node, at: int, index: int, was: seq<Check>, now: seq<Check>): Event {
    Event(0, at, datacenter, KIND_NODE, index, node.name, node.address, NodeStatus(was), NodeStatus(now),
          "", "", "", "", "", [], STATUS_UNKNOWN, STATUS_UNKNOWN, 0, 0, 0,
          "", "", "", STATUS_UNKNOWN, STATUS_UNKNOWN, "")
  }

  function Next(l: Loop, round: Round): Loop {
    if round.Fetched? then Loop(W.NextIndex(l.index, round.index), Attached(round.checks, false), false) else l
  }

  function After(rounds: seq<Round>): Loop {
    if rounds == [] then START else Next(After(rounds[..|rounds| - 1]), rounds[|rounds| - 1])
  }

  /** A round emits the departure of the node, one event for each check that changed, or nothing. */
  ghost predicate Emits(datacenter: string, node: Node, l: Loop, round: Round, batch: seq<Event>) {
    match round
    case Left(at) => batch == [Base(datacenter, node, at, l.index, l.last, [])]
    case Fetched(index, checks, at) =>
      var now := Attached(checks, false);
      if !l.first && index != l.index then
        Reports(batch,
                CheckChanges(Base(datacenter, node, at, index, l.last, now), CheckIndex(l.last), CheckIndex(now)),
                CHECK_ID, Every())
      else batch == []
    case _ => batch == []
  }

  ghost predicate Emitted(datacenter: string, node: Node, rounds: seq<Round>, batches: seq<seq<Event>>) {
    && |batches| == |rounds|
    && forall i | 0 <= i < |rounds| :: Emits(datacenter, node, After(rounds[..i]), rounds[i], batches[i])
  }

  predicate Ends(round: Round) {
    round.Left? || round.Cancelled? || (round.Failed? && round.wake.Interrupted?)
  }

  /** A watch goes on after fetches, and after errors that it slept through. */
  lemma EndsExactly(round: Round)
    ensures Ends(round) <==> !round.Fetched? && round != Failed(W.Elapsed)
  {}

  /** What a consumer knows of the checks of a node. */
  function Statuses(checks: seq<Check>): map<string, int> {
    var index := CheckIndex(checks);
    map id | id in index :: StatusFromConsul(index[id].status)
  }

  /** A query that returns at the index it was asked for timed out without a change. */
  ghost predicate Unchanged(l: Loop, round: Round) {
    round.Fetched? && !l.first && round.index == l.index ==> Statuses(Attached(round.checks, false)) == Statuses(l.last)
  }

  ghost predicate Honest(rounds: seq<Round>) {
    forall i | 0 <= i < |rounds| :: Unchanged(After(rounds[..i]), rounds[i])
  }

  const CHECK_LEFT := (e: Event) => if e.newCheckStatus == STATUS_MISSING then None else Some(e.newCheckStatus)

  function Follow(statuses: map<string, int>, out: seq<Event>): map<string, int> {
    Replay(statuses, out, CHECK_ID, CHECK_LEFT)
  }

  lemma DiffReplays(base: Event, was: seq<Check>, now: seq<Check>, out: seq<Event>)
    requires Reports(out, CheckChanges(base, CheckIndex(was), CheckIndex(now)), CHECK_ID, Every())
    ensures Follow(Statuses(was), out) == Statuses(now)
  {
    var before, after := CheckIndex(was), CheckIndex(now);
    hide CheckIndex;
    hide Reports;
    hide Replay;
    CheckChangesFiled(base, before, after);
    var change := CheckChanges(base, before, after);
    forall id
      ensures Lookup(Follow(Statuses(was), out), id) == Lookup(Statuses(now), id)
    {
      ReplayReports(Statuses(was), out, change, CHECK_ID, CHECK_LEFT, id);
      assert change(id) == CheckChange(base, before, after, id);
    }
    SameMap(Follow(Statuses(was), out), Statuses(now));
  }

  lemma SameMap<K(!new), V>(a: map<K, V>, b: map<K, V>)
    requires forall k :: Lookup(a, k) == Lookup(b, k)
    ensures a == b
  {
    forall k
      ensures (k in a <==> k in b) && (k in a ==> a[k] == b[k])
    {
      assert Lookup(a, k) == Lookup(b, k);
    }
  }

  lemma RoundReplays(datacenter: string, node: Node, l: Loop, round: Round, batch: seq<Event>)
    requires !l.first && !round.Left? && Emits(datacenter, node, l, round, batch) && Unchanged(l, round)
    ensures Follow(Statuses(l.last), batch) == Statuses(Next(l, round).last)
  {
    hide Statuses;
    hide CheckIndex;
    hide Attached;
    hide Reports;
    hide NodeStatus;
    match round
    case Fetched(index, checks, at) =>
      if index != l.index {
        DiffReplays(Base(datacenter, node, at, index, l.last, Attached(checks, false)), l.last, Attached(checks, false),
                    batch);
      }
    case _ =>
  }

  lemma RunInit(datacenter: string, node: Node, rounds: seq<Round>, batches: seq<seq<Event>>)
    requires rounds != [] && Emitted(datacenter, node, rounds, batches) && Honest(rounds)
    ensures var n := |rounds| - 1;
            && Emitted(datacenter, node, rounds[..n], batches[..n]) && Honest(rounds[..n])
            && Emits(datacenter, node, After(rounds[..n]), rounds[n], batches[n])
            && Unchanged(After(rounds[..n]), rounds[n])
  {
    hide After;
    hide Emits;
    hide Unchanged;
    var n := |rounds| - 1;
    forall i | 0 <= i < n
      ensures rounds[..n][..i] == rounds[..i]
    {
      PrefixOfPrefix(rounds, i);
    }
  }

  /** The checks of the node when it was first fetched. */
  function FirstChecks(rounds: seq<Round>): seq<Check> {
    if rounds == [] then []
    else if After(rounds[..|rounds| - 1]).first && rounds[|rounds| - 1].Fetched?
    then Attached(rounds[|rounds| - 1].checks, false)
    else FirstChecks(rounds[..|rounds| - 1])
  }

  /** As long as the node is in the catalog, replaying every event of its watch on top of the
      checks first fetched gives exactly the statuses of the checks last fetched. */
  lemma {:induction false} RunReplays(datacenter: string, node: Node, rounds: seq<Round>, batches: seq<seq<Event>>)
    requires Emitted(datacenter, node, rounds, batches) && Honest(rounds)
    requires forall i | 0 <= i < |rounds| :: !rounds[i].Left?
    ensures Follow(Statuses(FirstChecks(rounds)), Concat(batches)) == Statuses(After(rounds).last)
    ensures After(rounds).first ==> Concat(batches) == [] && After(rounds).last == [] && FirstChecks(rounds) == []
  {
    hide Statuses;
    hide Attached;
    if rounds != [] {
      var n := |rounds| - 1;
      var l := After(rounds[..n]);
      RunInit(datacenter, node, rounds, batches);
      RunReplays(datacenter, node, rounds[..n], batches[..n]);
      ConcatLast(batches);
      ReplayConcat(Statuses(FirstChecks(rounds)), Concat(batches[..n]), batches[n], CHECK_ID, CHECK_LEFT);
      if l.first {
        assert batches[n] == [] by { hide Reports; }
      } else {
        hide Emits;
        hide Unchanged;
        RoundReplays(datacenter, node, l, rounds[n], batches[n]);
      }
    }
  }

  /** The headline of a node event says missing when the node left, but also when a node that
      stays loses its last check: no other event of the watch says so. */
  lemma MissingHeadline(datacenter: string, node: Node, l: Loop, round: Round, batch: seq<Event>, e: Event)
    requires Emits(datacenter, node, l, round, batch) && e in batch
    ensures e.NewStatus() == STATUS_MISSING <==> round.Left? || (round.Fetched? && Attached(round.checks, false) == [])
    ensures e.OldStatus() == STATUS_MISSING <==> l.last == []
  {
    hide CheckIndex;
    hide Attached;
    MissingMeansNoChecks(l.last);
    match round
    case Left(at) =>
    case Fetched(index, checks, at) =>
      var now := Attached(checks, false);
      MissingMeansNoChecks(now);
      var change := CheckChanges(Base(datacenter, node, at, index, l.last, now), CheckIndex(l.last), CheckIndex(now));
      assert change(CHECK_ID(e)) == Some(e);
      hide NodeStatus;
    case _ =>
  }

  /** The node's own checks when last fetched. */
  function LastChecks(rounds: seq<Round>): seq<Check> {
    if rounds == [] then []
    else if rounds[|rounds| - 1].Fetched? then Attached(rounds[|rounds| - 1].checks, false)
    else LastChecks(rounds[..|rounds| - 1])
  }

  lemma {:induction false} LoopKnows(rounds: seq<Round>)
    ensures After(rounds).last == LastChecks(rounds)
    ensures After(rounds).first <==> forall i | 0 <= i < |rounds| :: !rounds[i].Fetched?
  {
    hide Attached;
    if rounds != [] {
      LoopKnows(rounds[..|rounds| - 1]);
    }
  }

  /** The event is about the node and takes it from the aggregate of its checks before to the one
      now. */
  ghost predicate DescribesNode(e: Event, datacenter: string, node: Node, at: int, index: int, was: seq<Check>,
                                now: seq<Check>) {
    && e.kind == KIND_NODE && e.time == at && e.datacenter == datacenter && e.consulIndex == index
    && e.nodeName == node.name && e.nodeIP == node.address && e.serviceName == "" && e.serviceID == ""
    && e.oldNodeStatus == NodeStatus(was) && e.newNodeStatus == NodeStatus(now)
  }

  lemma RoundDescribed(datacenter: string, node: Node, l: Loop, round: Round, batch: seq<Event>, e: Event)
    requires Emits(datacenter, node, l, round, batch) && e in batch
    ensures !l.first || round.Left?
    ensures round.Left? ==>
              && batch == [e] && DescribesNode(e, datacenter, node, round.at, l.index, l.last, [])
              && e.checkID == "" && e.oldCheckStatus == STATUS_UNKNOWN && e.newCheckStatus == STATUS_UNKNOWN
    ensures round.Fetched? ==>
              var now := Attached(round.checks, false);
              && DescribesNode(e, datacenter, node, round.at, round.index, l.last, now)
              && DescribesCheck(e, CheckIndex(l.last), CheckIndex(now))
              && RawStatus(CheckIndex(l.last), e.checkID) != RawStatus(CheckIndex(now), e.checkID)
    ensures round.Left? || round.Fetched?
  {
    hide Attached;
    hide CheckIndex;
    hide NodeStatus;
    match round
    case Fetched(index, checks, at) =>
      var now := Attached(checks, false);
      var base := Base(datacenter, node, at, index, l.last, now);
      assert CheckChanges(base, CheckIndex(l.last), CheckIndex(now))(CHECK_ID(e)) == Some(e);
      CheckDescribed(base, CheckIndex(l.last), CheckIndex(now), CHECK_ID(e));
      hide CheckChange;
      hide DescribesCheck;
    case _ =>
  }

  /** What a round reports: the departure of the node, once; on a fetch that moved the index every
      check that changed its raw status, once; and nothing else. After a fetch the next one is
      compared unless it returns at the same index, or, if the index went back, at zero. */
  lemma RoundReports(datacenter: string, node: Node, l: Loop, round: Round, batch: seq<Event>)
    requires Emits(datacenter, node, l, round, batch)
    ensures round.Left? ==> |batch| == 1
    ensures round.Fetched? && !l.first && round.index != l.index ==>
              var now := Attached(round.checks, false);
              && (forall i, j | 0 <= i < j < |batch| :: batch[i].checkID != batch[j].checkID)
              && forall id | RawStatus(CheckIndex(l.last), id) != RawStatus(CheckIndex(now), id) ::
                   exists e | e in batch :: e.checkID == id
    ensures round.Fetched? && (l.first || round.index == l.index) ==> batch == []
    ensures round.Cancelled? || round.Failed? ==> batch == []
    ensures round.Fetched? ==>
              !Next(l, round).first && Next(l, round).index == if round.index < l.index then 0 else round.index
  {
    hide Attached;
    hide CheckIndex;
    hide NodeStatus;
    if round.Fetched? && !l.first && round.index != l.index {
      var now := Attached(round.checks, false);
      var base := Base(datacenter, node, round.at, round.index, l.last, now);
      var change := CheckChanges(base, CheckIndex(l.last), CheckIndex(now));
      forall i, j | 0 <= i < j < |batch|
        ensures batch[i].checkID != batch[j].checkID
      {
        assert CHECK_ID(batch[i]) != CHECK_ID(batch[j]);
      }
      forall id | RawStatus(CheckIndex(l.last), id) != RawStatus(CheckIndex(now), id)
        ensures exists e | e in batch :: e.checkID == id
      {
        CheckDescribed(base, CheckIndex(l.last), CheckIndex(now), id);
        assert id in Every<string>() && change(id).value in batch;
      }
    }
  }

  /** Every event of a watch takes the node from the checks last fetched to those of its round: one
      that says that the node left, or one about a check that changed its raw status. */
  lemma EventsDescribe(datacenter: string, node: Node, rounds: seq<Round>, batches: seq<seq<Event>>, i: nat, e: Event)
    requires Emitted(datacenter, node, rounds, batches) && i < |rounds| && |batches| == |rounds| && e in batches[i]
    ensures var was := LastChecks(rounds[..i]);
            match rounds[i]
            case Left(at) =>
              batches[i] == [e] && DescribesNode(e, datacenter, node, at, After(rounds[..i]).index, was, [])
            case Fetched(index, checks, at) =>
              var now := Attached(checks, false);
              && DescribesNode(e, datacenter, node, at, index, was, now)
              && DescribesCheck(e, CheckIndex(was), CheckIndex(now))
              && RawStatus(CheckIndex(was), e.checkID) != RawStatus(CheckIndex(now), e.checkID)
            case _ => false
  {
    LoopKnows(rounds[..i]);
    hide After;
    hide LastChecks;
    RoundDescribed(datacenter, node, After(rounds[..i]), rounds[i], batches[i], e);
    hide Emits;
    hide DescribesNode;
    hide DescribesCheck;
    hide RawStatus;
    hide Attached;
    hide CheckIndex;
  }

  const CHECK_TAKEN := (e: Event) => if e.oldCheckStatus == STATUS_MISSING then None else Some(e.oldCheckStatus)

  /** While the node is in the catalog every event about a check starts from the status that
      replaying all events before its round gives the check. */
  lemma RunTakes(datacenter: string, node: Node, rounds: seq<Round>, batches: seq<seq<Event>>, i: nat, e: Event)
    requires Emitted(datacenter, node, rounds, batches) && Honest(rounds)
    requires i < |rounds| && |batches| == |rounds| && e in batches[i] && forall k | 0 <= k <= i :: !rounds[k].Left?
    ensures CHECK_TAKEN(e) == Lookup(Follow(Statuses(FirstChecks(rounds[..i])), Concat(batches[..i])), e.checkID)
  {
    hide Follow;
    var l := After(rounds[..i]);
    Before(datacenter, node, rounds, batches, i);
    RunReplays(datacenter, node, rounds[..i], batches[..i]);
    assert Emits(datacenter, node, l, rounds[i], batches[i]);
    RoundDescribed(datacenter, node, l, rounds[i], batches[i], e);
    hide After;
    hide Emits;
    hide CheckIndex;
    hide Attached;
    hide FirstChecks;
    var index := CheckIndex(l.last);
    if e.checkID in index {
      KnownStatus(index[e.checkID].status);
    }
  }

  lemma KnownStatus(status: string)
    ensures StatusFromConsul(status) != STATUS_MISSING
  {}

  lemma Before(datacenter: string, node: Node, rounds: seq<Round>, batches: seq<seq<Event>>, i: nat)
    requires Emitted(datacenter, node, rounds, batches) && Honest(rounds) && i <= |rounds| && |batches| == |rounds|
    ensures Emitted(datacenter, node, rounds[..i], batches[..i]) && Honest(rounds[..i])
  {
    hide After;
    hide Emits;
    hide Unchanged;
    forall k | 0 <= k < i
      ensures rounds[..i][..k] == rounds[..k]
    {}
  }

  /** Compares the checks of a node with those before, or reports that it is gone. */
  method CompareNode(w: Watcher, at: int, index: int, node: Node, was: seq<Check>, now: Option<seq<Check>>)
    returns (ghost out: seq<Event>)
    modifies w`events
    ensures w.events == old(w.events) + out
    ensures var checks := if now.Some? then now.value else [];
            var base := Base(w.cfg.datacenter, node, at, index, was, checks);
            if now.None? then out == [base]
            else Reports(out, CheckChanges(base, CheckIndex(was), CheckIndex(checks)), CHECK_ID, Every())
  {
    hide Reports;
    hide CheckIndex;
    var checks := if now.Some? then now.value else [];
    var before, after := STATUS_MISSING, STATUS_MISSING;
    if was != [] {
      before := Aggregate(was);
    }
    if checks != [] {
      after := Aggregate(checks);
    }
    var base := Base(w.cfg.datacenter, node, at, index, [], []).(oldNodeStatus := before, newNodeStatus := after);
    assert base == Base(w.cfg.datacenter, node, at, index, was, checks);
    if now.None? {
      w.events := w.events + [base];
      out := [base];
    } else {
      out := w.CompareChecks(base, was, checks);
    }
  }

  /** One successful fetch, of which only the checks of the node itself are kept. */
  method Receive(w: Watcher, node: Node, ghost l: Loop, ghost round: Round, got: nat, fetched: seq<Check>, at: int,
                 index: nat, last: seq<Check>, first: bool)
    returns (checks: seq<Check>, ghost out: seq<Event>)
    requires round == Fetched(got, fetched, at) && l == Loop(index, last, first)
    modifies w`events
    ensures w.events == old(w.events) + out && Emits(w.cfg.datacenter, node, l, round, out)
    ensures Next(l, round) == Loop(W.NextIndex(index, got), checks, false)
  {
    hide Reports;
    hide CheckIndex;
    hide Base;
    checks := SelectChecks(fetched, false);
    hide Attached;
    out := [];
    if !first && got != index {
      out := CompareNode(w, at, got, node, last, Some(checks));
    }
  }

  /** The watch of one node, as far as the inputs go. */
  method WatchNode(w: Watcher, node: Node, rounds: seq<Round>) returns (used: nat, ghost batches: seq<seq<Event>>)
    modifies w`events
    ensures used <= |rounds| && (forall i | 0 <= i < used - 1 :: !Ends(rounds[i]))
    ensures used < |rounds| ==> used > 0 && Ends(rounds[used - 1])
    ensures w.events == old(w.events) + Concat(batches) && Emitted(w.cfg.datacenter, node, rounds[..used], batches)
  {
    hide Logged;
    hide Next;
    hide Emits;
    hide Concat;
    hide Base;
    var index: nat, last: seq<Check>, first := 0, [], true;
    used, batches := 0, [];
    NothingLogged(w.cfg.datacenter, node, rounds);
    while used < |rounds|
      invariant used <= |rounds| && forall i | 0 <= i < used :: !Ends(rounds[i])
      invariant w.events == old(w.events) + Concat(batches)
      invariant Logged(w.cfg.datacenter, node, rounds, used, Loop(index, last, first), batches)
    {
      var round := rounds[used];
      ghost var l := Loop(index, last, first);
      ghost var out := [];
      match round {
        case Left(at) =>
          out := CompareNode(w, at, index, node, last, None);
          LeftEmits(w.cfg.datacenter, node, l, round, out);
        case Fetched(got, checks, at) =>
          last, out := Receive(w, node, l, round, got, checks, at, index, last, first);
          index, first := W.NextIndex(index, got), false;
        case _ =>
          QuietRound(w.cfg.datacenter, node, l, round);
      }
      LogMore(w.cfg.datacenter, node, rounds, used, l, batches, out);
      batches, used := batches + [out], used + 1;
      if Ends(round) {
        LogRead(w.cfg.datacenter, node, rounds, used, Next(l, round), batches);
        return;
      }
    }
    LogRead(w.cfg.datacenter, node, rounds, used, Loop(index, last, first), batches);
  }

  lemma LeftEmits(datacenter: string, node: Node, l: Loop, round: Round, batch: seq<Event>)
    requires round.Left? && batch == [Base(datacenter, node, round.at, l.index, l.last, [])]
    ensures Emits(datacenter, node, l, round, batch) && Ends(round)
  {}

  lemma QuietRound(datacenter: string, node: Node, l: Loop, round: Round)
    requires round.Cancelled? || round.Failed?
    ensures Emits(datacenter, node, l, round, []) && Next(l, round) == l
  {}

  ghost predicate Logged(datacenter: string, node: Node, rounds: seq<Round>, used: nat, l: Loop,
                         batches: seq<seq<Event>>)
    requires used <= |rounds|
  {
    l == After(rounds[..used]) && Emitted(datacenter, node, rounds[..used], batches)
  }

  lemma NothingLogged(datacenter: string, node: Node, rounds: seq<Round>)
    ensures Logged(datacenter, node, rounds, 0, START, []) && Concat<Event>([]) == []
  {}

  lemma LogRead(datacenter: string, node: Node, rounds: seq<Round>, used: nat, l: Loop, batches: seq<seq<Event>>)
    requires used <= |rounds| && Logged(datacenter, node, rounds, used, l, batches)
    ensures Emitted(datacenter, node, rounds[..used], batches)
  {
    hide Emitted;
  }

  lemma LogMore(datacenter: string, node: Node, rounds: seq<Round>, used: nat, l: Loop, batches: seq<seq<Event>>,
                out: seq<Event>)
    requires used < |rounds| && Logged(datacenter, node, rounds, used, l, batches)
             && Emits(datacenter, node, l, rounds[used], out)
    ensures Logged(datacenter, node, rounds, used + 1, Next(l, rounds[used]), batches + [out])
    ensures Concat(batches + [out]) == Concat(batches) + out
  {
    hide Emits;
    hide Next;
    ConcatAppend(batches, out);
    Prefixes(rounds, used);
    var upTo := rounds[..used + 1];
    assert After(upTo) == Next(After(rounds[..used]), rounds[used]);
    hide After;
    forall i | 0 <= i < used
      ensures Emits(datacenter, node, After(rounds[..i]), rounds[i], batches[i])
    {
      assert rounds[..used][i] == rounds[i];
    }
  }

  // ---- the list of nodes -----------------------------------------------------

  function Names(nodes: seq<Node>): seq<string> {
    seq(|nodes|, i requires 0 <= i < |nodes| => nodes[i].name)
  }

  function Arrival(datacenter: string, node: Node, at: int, index: int): Event {
    Base(datacenter, node, at, index, [], []).(oldNodeStatus := STATUS_MISSING, newNodeStatus := STATUS_UNKNOWN)
  }

  /** The entries of names that are not known yet, each where the name first appears. */
  function NewNodes(known: set<string>, nodes: seq<Node>): seq<Node> {
    if nodes == [] then []
    else
      var init, node := nodes[..|nodes| - 1], nodes[|nodes| - 1];
      NewNodes(known, init) + if node.name in known || node.name in Names(init) then [] else [node]
  }

  lemma {:induction false} NewNodesNamed(known: set<string>, nodes: seq<Node>)
    ensures Names(NewNodes(known, nodes)) == S.NewNames(known, Names(nodes))
  {
    if nodes != [] {
      NewNodesNamed(known, nodes[..|nodes| - 1]);
      assert Names(nodes)[..|nodes| - 1] == Names(nodes[..|nodes| - 1]);
    }
  }

  /** These are the listed nodes that are not known yet, each once. */
  lemma NewNodesOnce(known: set<string>, nodes: seq<Node>)
    ensures var names := Names(NewNodes(known, nodes));
            && (forall name :: name in names <==> name in Names(nodes) && name !in known)
            && (forall i, j | 0 <= i < j < |names| :: names[i] != names[j])
  {
    NewNodesNamed(known, nodes);
    S.NewNamesAre(known, Names(nodes));
  }

  /** Each is the first entry of its name. */
  lemma {:induction false} NewNodesFirst(known: set<string>, nodes: seq<Node>, node: Node)
    requires node in NewNodes(known, nodes)
    ensures exists i :: 0 <= i < |nodes| && nodes[i] == node && forall j | 0 <= j < i :: nodes[j].name != node.name
  {
    var init, last := nodes[..|nodes| - 1], |nodes| - 1;
    if node in NewNodes(known, init) {
      NewNodesFirst(known, init, node);
      var i :| 0 <= i < |init| && init[i] == node && forall j | 0 <= j < i :: init[j].name != node.name;
      assert nodes[i] == node && forall j | 0 <= j < i :: nodes[j] == init[j];
    } else {
      forall j | 0 <= j < last
        ensures nodes[j].name != node.name
      {
        assert Names(init)[j] == nodes[j].name;
      }
      assert nodes[last] == node;
    }
  }

  /** One event per node that was not watched, in the order of the list. */
  function Arrivals(datacenter: string, nodes: seq<Node>, at: int, index: int): seq<Event> {
    seq(|nodes|, i requires 0 <= i < |nodes| => Arrival(datacenter, nodes[i], at, index))
  }

  /** Such an event is about the node of its place in the list, which goes from missing to unknown. */
  lemma ArrivalsSay(datacenter: string, nodes: seq<Node>, at: int, index: int, i: nat)
    requires i < |nodes|
    ensures |Arrivals(datacenter, nodes, at, index)| == |nodes|
    ensures var e := Arrivals(datacenter, nodes, at, index)[i];
            && e.kind == KIND_NODE && e.time == at && e.datacenter == datacenter && e.consulIndex == index
            && e.nodeName == nodes[i].name && e.nodeIP == nodes[i].address
            && e.OldStatus() == STATUS_MISSING && e.NewStatus() == STATUS_UNKNOWN
  {}

  /** The address of each name, as its last entry says. */
  function Addresses(nodes: seq<Node>): map<string, string> {
    if nodes == [] then map[]
    else Addresses(nodes[..|nodes| - 1])[nodes[|nodes| - 1].name := nodes[|nodes| - 1].address]
  }

  lemma {:induction false} AddressesAreLast(nodes: seq<Node>, i: nat)
    requires i < |nodes| && forall j | i < j < |nodes| :: nodes[j].name != nodes[i].name
    ensures nodes[i].name in Addresses(nodes) && Addresses(nodes)[nodes[i].name] == nodes[i].address
  {
    if i < |nodes| - 1 {
      AddressesAreLast(nodes[..|nodes| - 1], i);
    }
  }

  lemma {:induction false} AddressesOfNames(nodes: seq<Node>)
    ensures Addresses(nodes).Keys == set name | name in Names(nodes)
  {
    if nodes != [] {
      AddressesOfNames(nodes[..|nodes| - 1]);
      assert Names(nodes) == Names(nodes[..|nodes| - 1]) + [nodes[|nodes| - 1].name];
    }
  }

  /** A new list of nodes: the watches are brought in step with it and every node that was not
      watched is reported once, except on the first list, which is counted for readiness instead. */
  method SyncNodes(w: Watcher, watches: S.Watches, ready: S.Readiness, addresses: map<string, string>,
                   nodes: seq<Node>, index: int, initial: bool, at: int)
    returns (added: seq<Node>, known: map<string, string>)
    requires watches.Valid() && addresses.Keys == watches.running.Keys
    modifies w`events, watches, ready
    ensures watches.Valid() && watches.running.Keys == set name | name in Names(nodes)
    ensures forall name | name in watches.running && name in old(watches.running) ::
              watches.running[name] == old(watches.running)[name]
    ensures watches.closed == old(watches.closed)
            + S.Ended(old(watches.running), old(watches.running).Keys, Names(nodes))
    ensures added == NewNodes(old(watches.running).Keys, nodes)
    ensures w.events == old(w.events) + if initial then [] else Arrivals(w.cfg.datacenter, added, at, index)
    ensures ready.State() == if initial then S.AfterList(old(ready.State()), |added|) else old(ready.State())
    ensures known == Addresses(nodes)
  {
    hide S.Sound;
    hide S.Ended;
    hide Arrivals;
    hide NewNodes;
    added, known := StartNodes(w, watches, addresses, nodes, index, initial, at);
    S.EndedSame(old(watches.running), watches.running, Names(nodes));
    S.UnlistedGone(watches.running, Names(nodes));
    AddressesOfNames(nodes);
    known := known - S.Unlisted(watches.running.Keys, Names(nodes));
    watches.StopOthers(Names(nodes));
    if initial {
      ready.ListArrived(|added|);
    }
  }

  /** The loop over the list. */
  method StartNodes(w: Watcher, watches: S.Watches, addresses: map<string, string>, nodes: seq<Node>, index: int,
                    initial: bool, at: int)
    returns (added: seq<Node>, known: map<string, string>)
    requires watches.Valid()
    modifies w`events, watches`running, watches`made
    ensures watches.Valid() && S.Extends(old(watches.running), watches.running, Names(nodes))
    ensures added == NewNodes(old(watches.running).Keys, nodes)
    ensures w.events == old(w.events) + if initial then [] else Arrivals(w.cfg.datacenter, added, at, index)
    ensures known == addresses + Addresses(nodes)
  {
    hide S.Sound;
    hide S.Extends;
    hide Arrival;
    hide Synced;
    hide Names;
    hide NewNodes;
    hide Addresses;
    added, known := [], addresses;
    ghost var before := watches.running;
    NoneSynced(before, addresses, nodes);
    for k := 0 to |nodes|
      invariant watches.Valid() && Synced(before, addresses, nodes[..k], watches.running, added, known)
      invariant w.events == old(w.events) + if initial then [] else Arrivals(w.cfg.datacenter, added, at, index)
    {
      var node := nodes[k];
      SyncMore(before, addresses, nodes, k, watches.running, watches.made, added, known);
      known := known[node.name := node.address];
      if node.name in watches.running {
        continue;
      }
      watches.Start(node.name);
      ArrivalsMore(w.cfg.datacenter, added, node, at, index);
      added := added + [node];
      if !initial {
        w.events := w.events + [Arrival(w.cfg.datacenter, node, at, index)];
      }
    }
    assert nodes[..|nodes|] == nodes;
    SyncRead(before, addresses, nodes, watches.running, added, known);
  }

  ghost predicate Synced(before: map<string, nat>, addresses: map<string, string>, listed: seq<Node>,
                         running: map<string, nat>, added: seq<Node>, known: map<string, string>) {
    && S.Extends(before, running, Names(listed))
    && added == NewNodes(before.Keys, listed)
    && known == addresses + Addresses(listed)
  }

  lemma NoneSynced(before: map<string, nat>, addresses: map<string, string>, nodes: seq<Node>)
    ensures Synced(before, addresses, nodes[..0], before, [], addresses)
    ensures forall datacenter: string, at, index :: Arrivals(datacenter, [], at, index) == []
  {
    S.ExtendsNone(before);
    assert Names([]) == [];
  }

  lemma SyncMore(before: map<string, nat>, addresses: map<string, string>, nodes: seq<Node>, k: nat,
                 running: map<string, nat>, channel: nat, added: seq<Node>, known: map<string, string>)
    requires k < |nodes| && Synced(before, addresses, nodes[..k], running, added, known)
    ensures var node := nodes[k];
            Synced(before, addresses, nodes[..k + 1],
                   if node.name in running then running else running[node.name := channel],
                   if node.name in running then added else added + [node], known[node.name := node.address])
  {
    hide S.Extends;
    NextName(before.Keys, nodes, k);
    S.ExtendsMore(before, running, Names(nodes[..k]), nodes[k].name, channel);
    hide Addresses;
    hide NewNodes;
    hide Names;
  }

  lemma SyncRead(before: map<string, nat>, addresses: map<string, string>, nodes: seq<Node>,
                 running: map<string, nat>, added: seq<Node>, known: map<string, string>)
    requires Synced(before, addresses, nodes, running, added, known)
    ensures S.Extends(before, running, Names(nodes))
    ensures added == NewNodes(before.Keys, nodes) && known == addresses + Addresses(nodes)
  {}

  lemma ArrivalsMore(datacenter: string, nodes: seq<Node>, node: Node, at: int, index: int)
    ensures Arrivals(datacenter, nodes + [node], at, index)
            == Arrivals(datacenter, nodes, at, index) + [Arrival(datacenter, node, at, index)]
  {
    hide Arrival;
  }

  lemma NextName(known: set<string>, nodes: seq<Node>, k: nat)
    requires k < |nodes|
    ensures nodes[..k + 1][..k] == nodes[..k]
    ensures Names(nodes[..k + 1]) == Names(nodes[..k]) + [nodes[k].name]
    ensures Addresses(nodes[..k + 1]) == Addresses(nodes[..k])[nodes[k].name := nodes[k].address]
    ensures NewNodes(known, nodes[..k + 1]) ==
            NewNodes(known, nodes[..k])
            + if nodes[k].name in known || nodes[k].name in Names(nodes[..k]) then [] else [nodes[k]]
  {
    assert nodes[..k + 1][..k] == nodes[..k];
  }
}
