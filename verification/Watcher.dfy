/** The watcher as it runs (watch/compare.go, watch/watch.go). Its two output channels are
    histories: everything ever sent, in the order it was sent. */
module Watcher {
  import opened Wrappers
  import opened Timeline
  import opened Catalog
  import opened Diffs
  import opened Compare
  import opened WatchRun
  import opened Sequences

  class Watcher {
    const cfg: Config
    var events: seq<Event>
    var instances: seq<Announcement>

    constructor (cfg: Config)
      ensures this.cfg == cfg && events == [] && instances == []
    {
      this.cfg := cfg;
      events, instances := [], [];
    }

    method EmitCheck(base: Event, c: Check, was: int, now: int)
      modifies `events
      ensures events == old(events) + [CheckEvent(base, c, was, now)]
    {
      events := events + [CheckEvent(base, c, was, now)];
    }

    /** The checks of the new state: one event for each that appeared or changed its raw status. */
    method CurrentChecks(base: Event, wasIndex: map<string, Check>, nowIndex: map<string, Check>)
      returns (ghost out: seq<Event>)
      requires Filed(CheckChanges(base, wasIndex, nowIndex), CHECK_ID)
      modifies `events
      ensures events == old(events) + out
      ensures Reports(out, CheckChanges(base, wasIndex, nowIndex), CHECK_ID, Among(nowIndex.Keys))
    {
      hide CurrentSoFar;
      hide CheckEvent;
      hide Filed;
      out := [];
      var todo := nowIndex.Keys;
      CurrentStart(base, wasIndex, nowIndex);
      while todo != {}
        invariant todo <= nowIndex.Keys && events == old(events) + out
        invariant CurrentSoFar(base, wasIndex, nowIndex, todo, out)
        decreases |todo|
      {
        var id :| id in todo;
        CurrentStep(base, wasIndex, nowIndex, todo, id, out);
        todo := todo - {id};
        out := out + ToList(CheckChange(base, wasIndex, nowIndex, id));
        var c := nowIndex[id];
        if id !in wasIndex {
          EmitCheck(base, c, STATUS_MISSING, StatusFromConsul(c.status));
        } else if wasIndex[id].status != c.status {
          EmitCheck(base, c, StatusFromConsul(wasIndex[id].status), StatusFromConsul(c.status));
        }
      }
      CurrentDone(base, wasIndex, nowIndex, out);
    }

    /** The checks of the old state that are gone. */
    method GoneChecks(base: Event, wasIndex: map<string, Check>, nowIndex: map<string, Check>)
      returns (ghost out: seq<Event>)
      requires Filed(CheckChanges(base, wasIndex, nowIndex), CHECK_ID)
      modifies `events
      ensures events == old(events) + out
      ensures Reports(out, CheckChanges(base, wasIndex, nowIndex), CHECK_ID, Among(wasIndex.Keys - nowIndex.Keys))
    {
      hide GoneSoFar;
      hide CheckEvent;
      hide Filed;
      out := [];
      var todo := wasIndex.Keys;
      GoneStart(base, wasIndex, nowIndex);
      while todo != {}
        invariant todo <= wasIndex.Keys && events == old(events) + out
        invariant GoneSoFar(base, wasIndex, nowIndex, todo, out)
        decreases |todo|
      {
        var id :| id in todo;
        GoneStep(base, wasIndex, nowIndex, todo, id, out);
        todo := todo - {id};
        if id !in nowIndex {
          var gone := wasIndex[id].(output := "");
          out := out + ToList(CheckChange(base, wasIndex, nowIndex, id));
          EmitCheck(base, gone, StatusFromConsul(wasIndex[id].status), STATUS_MISSING);
        }
      }
      GoneDone(base, wasIndex, nowIndex, out);
    }

    /** One event per check whose raw status differs; the order is that of two map iterations. */
    method CompareChecks(base: Event, was: seq<Check>, now: seq<Check>) returns (ghost out: seq<Event>)
      modifies `events
      ensures events == old(events) + out
      ensures Reports(out, CheckChanges(base, CheckIndex(was), CheckIndex(now)), CHECK_ID, Every())
    {
      var wasIndex := IndexChecks(was);
      var nowIndex := IndexChecks(now);
      CheckChangesFiled(base, wasIndex, nowIndex);
      ghost var current := CurrentChecks(base, wasIndex, nowIndex);
      ghost var gone := GoneChecks(base, wasIndex, nowIndex);
      out := current + gone;
      AllChecksReported(base, wasIndex, nowIndex, current, gone);
    }

    /** Sends the record of an instance when it is due. */
    method Announce(at: int, i: Instance, marks: Marks, force: bool) returns (after: Marks)
      modifies `instances
      ensures after == Remember(cfg, marks, at, i, force)
      ensures instances == old(instances) + Sent(cfg, marks, at, i, force)
    {
      var key := i.Key();
      var fingerprint := Fingerprint(cfg, i);
      if !force && key in marks && marks[key].fingerprint == fingerprint
          && at - marks[key].announced < INSTANCE_REFRESH {
        return marks;
      }
      after := marks[key := Mark(fingerprint, at)];
      instances := instances + [Record(cfg, at, i)];
    }

    /** A whole snapshot, up to an incomplete entry if there is one, where it crashes. */
    method AnnounceAll(at: int, nodes: seq<Registration>, marks: Marks, force: bool)
      returns (after: Marks, crashed: bool)
      modifies `instances
      ensures crashed <==> !AllComplete(nodes)
      ensures !crashed ==> after == RememberAll(cfg, marks, at, nodes, force)
      ensures !crashed ==> instances == old(instances) + SentAll(cfg, marks, at, nodes, force)
      ensures crashed ==> instances == old(instances) + SentAll(cfg, marks, at, nodes[..CompleteRun(nodes)], force)
    {
      after := marks;
      for k := 0 to |nodes|
        invariant k <= CompleteRun(nodes)
        invariant after == RememberAll(cfg, marks, at, nodes[..k], force)
        invariant instances == old(instances) + SentAll(cfg, marks, at, nodes[..k], force)
      {
        assert nodes[k] in nodes && nodes[..k + 1][..k] == nodes[..k];
        if !Complete(nodes[k]) {
          return after, true;
        }
        after := Announce(at, InstanceOf(nodes[k]), after, force);
      }
      assert nodes[..|nodes|] == nodes;
      crashed := false;
    }

    /** One instance of the new snapshot: its arrival, or its checks and its announcement. */
    method CompareInstance(ghost s: Step, now: Instance, was: Option<Instance>, base: Event, marks: Marks)
      returns (after: Marks, ghost out: seq<Event>)
      requires Lookup(Index(s.now), now.Key()) == Some(now) && Lookup(Index(s.was), now.Key()) == was
      requires base == Base(cfg, s, now)
      modifies this
      ensures after == Remember(cfg, marks, s.at, now, was.None?)
      ensures instances == old(instances) + Sent(cfg, marks, s.at, now, was.None?)
      ensures events == old(events) + out
      ensures Reports(out, ServiceChanges(cfg, s), CELL, CellsOf({now.Key()}))
    {
      hide Reports;
      hide Index;
      hide CheckIndex;
      hide Attached;
      hide Healthy;
      hide FirstSet;
      hide Due;
      var status := STATUS_PASSING;
      if now.checks != [] {
        status := Aggregate(now.checks);
      }
      match was
      case None =>
        events := events
          + [base.(kind := KIND_INSTANCE, oldServiceStatus := STATUS_MISSING, newServiceStatus := status)];
        out := ToList(InstanceChange(cfg, s, now.Key()));
        InstanceReports(cfg, s, now.Key());
        after := Announce(base.time, now, marks, true);
      case Some(before) =>
        after := Announce(base.time, now, marks, false);
        var wasChecks := SelectChecks(before.checks, true);
        var nowChecks := SelectChecks(now.checks, true);
        var wasStatus := STATUS_PASSING;
        if before.checks != [] {
          wasStatus := Aggregate(before.checks);
        }
        out := CompareChecks(base.(kind := KIND_CHECK, oldServiceStatus := wasStatus, newServiceStatus := status),
                             wasChecks, nowChecks);
        SurvivorReports(cfg, s, now.Key(), out);
    }

    /** One instance of the old snapshot: its departure, when it is not in the new one. */
    method Depart(ghost s: Step, was: Instance, stays: bool, base: Event, marks: Marks)
      returns (after: Marks, ghost out: seq<Event>)
      requires Lookup(Index(s.was), was.Key()) == Some(was) && (stays <==> was.Key() in Index(s.now))
      requires base == Base(cfg, s, was)
      modifies `events
      ensures after == if stays then marks else marks - {was.Key()}
      ensures events == old(events) + out
      ensures stays ==> out == []
      ensures !stays ==> Reports(out, ServiceChanges(cfg, s), CELL, CellsOf({was.Key()}))
    {
      hide Reports;
      hide Index;
      hide Healthy;
      hide FirstSet;
      if stays {
        return marks, [];
      }
      var status := STATUS_PASSING;
      if was.checks != [] {
        status := Aggregate(was.checks);
      }
      events := events + [base.(kind := KIND_INSTANCE, oldServiceStatus := status, newServiceStatus := STATUS_MISSING)];
      after := marks - {was.Key()};
      out := ToList(InstanceChange(cfg, s, was.Key()));
      InstanceReports(cfg, s, was.Key());
    }

    /** The instances of the new snapshot. */
    method CompareCurrent(s: Step, wasIndex: map<Key, Instance>, nowIndex: map<Key, Instance>, wasHealthy: nat,
                          nowHealthy: nat, marks: Marks)
      returns (after: Marks, ghost out: seq<Event>, ghost sent: seq<Announcement>)
      requires wasIndex == Index(s.was) && nowIndex == Index(s.now) && wasHealthy == Healthy(s.was)
               && nowHealthy == Healthy(s.now)
      modifies this
      ensures events == old(events) + out && Reports(out, ServiceChanges(cfg, s), CELL, CellsOf(nowIndex.Keys))
      ensures instances == old(instances) + sent
              && Reports(sent, Announces(cfg, s, marks), ANNOUNCED, Among(nowIndex.Keys))
      ensures MarksSoFar(cfg, s, marks, after, nowIndex.Keys)
    {
      hide Reports;
      hide Index;
      hide Healthy;
      hide Due;
      hide FirstSet;
      hide MarksSoFar;
      hide MarksAfter;
      hide Among;
      hide CellsOf;
      hide ComparedSoFar;
      hide DepartedSoFar;
      out, sent, after := [], [], marks;
      var todo := nowIndex.Keys;
      ComparedStart(cfg, s, marks);
      while todo != {}
        invariant todo <= nowIndex.Keys
        invariant events == old(events) + out && instances == old(instances) + sent
        invariant ComparedSoFar(cfg, s, marks, todo, out, sent, after)
        decreases |todo|
      {
        var key :| key in todo;
        ghost var before := after;
        var i := nowIndex[key];
        var base := Base(cfg, s, i).(oldHealthy := wasHealthy, newHealthy := nowHealthy);
        ghost var more;
        after, more := CompareInstance(s, i, Lookup(wasIndex, key), base, after);
        ComparedStep(cfg, s, marks, todo, key, out, more, sent, before);
        todo := todo - {key};
        out, sent := out + more, sent + Sent(cfg, before, s.at, i, key !in wasIndex);
      }
      ComparedDone(cfg, s, marks, out, sent, after);
    }

    /** The instances of the old snapshot that are gone. */
    method CompareGone(s: Step, wasIndex: map<Key, Instance>, nowIndex: map<Key, Instance>, wasHealthy: nat,
                       nowHealthy: nat,
                       ghost marks: Marks, current: Marks)
      returns (after: Marks, ghost out: seq<Event>)
      requires wasIndex == Index(s.was) && nowIndex == Index(s.now) && wasHealthy == Healthy(s.was)
               && nowHealthy == Healthy(s.now)
      requires MarksSoFar(cfg, s, marks, current, nowIndex.Keys)
      modifies `events
      ensures events == old(events) + out
              && Reports(out, ServiceChanges(cfg, s), CELL, CellsOf(wasIndex.Keys - nowIndex.Keys))
      ensures MarksSoFar(cfg, s, marks, after, nowIndex.Keys + wasIndex.Keys)
    {
      hide Reports;
      hide Index;
      hide Healthy;
      hide Due;
      hide FirstSet;
      hide MarksSoFar;
      hide MarksAfter;
      hide Among;
      hide CellsOf;
      hide ComparedSoFar;
      hide DepartedSoFar;
      out, after := [], current;
      var todo := wasIndex.Keys;
      DepartedStart(cfg, s, marks, current);
      while todo != {}
        invariant todo <= wasIndex.Keys
        invariant events == old(events) + out
        invariant DepartedSoFar(cfg, s, marks, todo, out, after)
        decreases |todo|
      {
        var key :| key in todo;
        ghost var more, before := [], after;
        var i := wasIndex[key];
        var base := Base(cfg, s, i).(oldHealthy := wasHealthy, newHealthy := nowHealthy);
        after, more := Depart(s, i, key in nowIndex, base, after);
        DepartedStep(cfg, s, marks, todo, key, out, more, before);
        todo := todo - {key};
        out := out + more;
      }
      DepartedDone(cfg, s, marks, out, after);
    }

    /** The diff of two snapshots of a service. */
    method CompareService(at: int, index: int, was: seq<Registration>, now: seq<Registration>, marks: Marks)
      returns (after: Marks, ghost out: seq<Event>, ghost sent: seq<Announcement>)
      modifies this
      ensures var s := Step(at, index, was, now);
              && events == old(events) + out && Reports(out, ServiceChanges(cfg, s), CELL, Every())
              && instances == old(instances) + sent && Reports(sent, Announces(cfg, s, marks), ANNOUNCED, Every())
              && after == MarksAfter(cfg, s, marks)
    {
      var s := Step(at, index, was, now);
      var wasIndex, wasHealthy := IndexInstances(was);
      var nowIndex, nowHealthy := IndexInstances(now);
      ghost var current, gone;
      after, current, sent := CompareCurrent(s, wasIndex, nowIndex, wasHealthy, nowHealthy, marks);
      after, gone := CompareGone(s, wasIndex, nowIndex, wasHealthy, nowHealthy, marks, after);
      out := current + gone;
      AllReported(cfg, s, current, gone);
      AllAnnounced(cfg, s, marks, sent);
      OtherMarks(cfg, s, marks, after);
    }

    /** One successful fetch. */
    method Receive(ghost l: Loop, ghost input: Input, got: nat, nodes: seq<Registration>, at: int, index: nat,
                   last: seq<Registration>, marks: Marks, first: bool)
      returns (after: Marks, crashed: bool, ghost out: seq<Event>, ghost sent: seq<Announcement>)
      requires input == Fetched(got, nodes, at) && l == Loop(index, last, marks, first)
      modifies this
      ensures crashed <==> Crashes(l, input)
      ensures events == old(events) + out && instances == old(instances) + sent
      ensures crashed ==> out == [] && sent == SentBeforeCrash(cfg, l, input)
      ensures !crashed ==> Emits(cfg, l, input, out) && Sends(cfg, l, input, sent)
      ensures !crashed ==> Next(cfg, l, input) == Loop(NextIndex(index, got), nodes, after, false)
    {
      hide Reports;
      hide RememberAll;
      hide SentAll;
      hide MarksAfter;
      hide Index;
      hide AllComplete;
      if !first && got != index {
        crashed := false;
        after, out, sent := CompareService(at, got, last, nodes, marks);
      } else {
        after, crashed := AnnounceAll(at, nodes, marks, first);
        out, sent := [], if crashed then SentBeforeCrash(cfg, l, input) else SentAll(cfg, marks, at, nodes, first);
      }
    }

    /** The stop signal. */
    method Leave(ghost l: Loop, at: int, index: nat, last: seq<Registration>, marks: Marks)
      returns (ghost out: seq<Event>, ghost sent: seq<Announcement>)
      requires l.index == index && l.last == last && l.marks == marks
      modifies this
      ensures events == old(events) + out && Emits(cfg, l, Stopped(at), out)
      ensures instances == old(instances) + sent && Sends(cfg, l, Stopped(at), sent)
    {
      hide Reports;
      hide Index;
      out, sent := [], [];
      if |last| > 0 {
        var after;
        after, out, sent := CompareService(at, index, last, [], marks);
      }
    }

    /** The watch of one service, as far as the inputs go, or until it crashes. */
    method WatchService(inputs: seq<Input>)
      returns (used: nat, crashed: bool, ghost batches: seq<seq<Event>>, ghost lists: seq<seq<Announcement>>)
      modifies this
      ensures used <= |inputs| && Going(inputs[..used]) && Safe(cfg, inputs[..used])
      ensures Emitted(cfg, inputs[..used], batches) && Announced(cfg, inputs[..used], lists)
      ensures events == old(events) + Concat(batches)
      ensures crashed ==> used < |inputs| && Crashes(After(cfg, inputs[..used]), inputs[used])
      ensures crashed ==>
                instances
                == old(instances) + Concat(lists) + SentBeforeCrash(cfg, After(cfg, inputs[..used]), inputs[used])
      ensures !crashed ==> instances == old(instances) + Concat(lists)
      ensures !crashed && used < |inputs| ==> used > 0 && Ends(inputs[used - 1])
    {
      hide Logged;
      hide Crashes;
      hide SentBeforeCrash;
      hide Emits;
      hide Sends;
      hide Next;
      hide Concat;
      var index: nat, last: seq<Registration>, marks: Marks, first := 0, [], map[], true;
      used, crashed, batches, lists := 0, false, [], [];
      NothingLogged(cfg, inputs);
      while used < |inputs|
        invariant used <= |inputs| && !crashed && forall i | 0 <= i < used :: !Ends(inputs[i])
        invariant events == old(events) + Concat(batches) && instances == old(instances) + Concat(lists)
        invariant Logged(cfg, inputs, used, Loop(index, last, marks, first), batches, lists)
      {
        var input := inputs[used];
        ghost var l := Loop(index, last, marks, first);
        ghost var out, sent := [], [];
        match input {
          case Stopped(at) =>
            out, sent := Leave(l, at, index, last, marks);
            NoCrash(l, input);
          case Fetched(got, nodes, at) =>
            marks, crashed, out, sent := Receive(l, input, got, nodes, at, index, last, marks, first);
            if crashed {
              LogRead(cfg, inputs, used, l, batches, lists);
              return;
            }
            last, index, first := nodes, NextIndex(index, got), false;
          case _ =>
            QuietRound(cfg, l, input);
            NoCrash(l, input);
        }
        LogMore(cfg, inputs, used, l, batches, lists, out, sent);
        batches, lists, used := batches + [out], lists + [sent], used + 1;
        if Ends(input) {
          LogRead(cfg, inputs, used, Next(cfg, l, input), batches, lists);
          return;
        }
      }
      LogRead(cfg, inputs, used, Loop(index, last, marks, first), batches, lists);
    }
  }

  // ---- progress of the loops ---------------------------------------------------

  ghost predicate CurrentSoFar(base: Event, was: map<string, Check>, now: map<string, Check>, todo: set<string>,
                               out: seq<Event>) {
    Reports(out, CheckChanges(base, was, now), CHECK_ID, Among(now.Keys - todo))
  }

  lemma CurrentStart(base: Event, was: map<string, Check>, now: map<string, Check>)
    ensures CurrentSoFar(base, was, now, now.Keys, [])
  {
    assert now.Keys - now.Keys == {};
  }

  lemma CurrentStep(base: Event, was: map<string, Check>, now: map<string, Check>, todo: set<string>, id: string,
                    out: seq<Event>)
    requires CurrentSoFar(base, was, now, todo, out) && id in todo && todo <= now.Keys
             && Filed(CheckChanges(base, was, now), CHECK_ID)
    ensures CurrentSoFar(base, was, now, todo - {id}, out + ToList(CheckChange(base, was, now, id)))
  {
    hide Reports;
    AmongNext(now.Keys, todo, id);
    ReportsNext(out, CheckChanges(base, was, now), CHECK_ID, Among(now.Keys - todo), id);
  }

  lemma CurrentDone(base: Event, was: map<string, Check>, now: map<string, Check>, out: seq<Event>)
    requires CurrentSoFar(base, was, now, {}, out)
    ensures Reports(out, CheckChanges(base, was, now), CHECK_ID, Among(now.Keys))
  {
    hide Reports;
    assert now.Keys - {} == now.Keys;
  }

  ghost predicate GoneSoFar(base: Event, was: map<string, Check>, now: map<string, Check>, todo: set<string>,
                            out: seq<Event>) {
    Reports(out, CheckChanges(base, was, now), CHECK_ID, Among((was.Keys - now.Keys) - (todo - now.Keys)))
  }

  lemma GoneStart(base: Event, was: map<string, Check>, now: map<string, Check>)
    ensures GoneSoFar(base, was, now, was.Keys, [])
  {
    assert (was.Keys - now.Keys) - (was.Keys - now.Keys) == {};
  }

  lemma GoneStep(base: Event, was: map<string, Check>, now: map<string, Check>, todo: set<string>, id: string,
                 out: seq<Event>)
    requires GoneSoFar(base, was, now, todo, out) && id in todo && todo <= was.Keys
             && Filed(CheckChanges(base, was, now), CHECK_ID)
    ensures GoneSoFar(base, was, now, todo - {id},
                      if id in now then out else out + ToList(CheckChange(base, was, now, id)))
  {
    hide Reports;
    var all, left := was.Keys - now.Keys, todo - now.Keys;
    if id in now {
      assert (todo - {id}) - now.Keys == left;
    } else {
      AmongNext(all, left, id);
      ReportsNext(out, CheckChanges(base, was, now), CHECK_ID, Among(all - left), id);
      assert (todo - {id}) - now.Keys == left - {id};
    }
  }

  lemma GoneDone(base: Event, was: map<string, Check>, now: map<string, Check>, out: seq<Event>)
    requires GoneSoFar(base, was, now, {}, out)
    ensures Reports(out, CheckChanges(base, was, now), CHECK_ID, Among(was.Keys - now.Keys))
  {
    hide Reports;
    assert (was.Keys - now.Keys) - ({} - now.Keys) == was.Keys - now.Keys;
  }

  ghost predicate ComparedSoFar(cfg: Config, s: Step, marks: Marks, todo: set<Key>, out: seq<Event>,
                                sent: seq<Announcement>, after: Marks) {
    var done := Index(s.now).Keys - todo;
    && Reports(out, ServiceChanges(cfg, s), CELL, CellsOf(done))
    && Reports(sent, Announces(cfg, s, marks), ANNOUNCED, Among(done))
    && MarksSoFar(cfg, s, marks, after, done)
  }

  lemma ComparedStart(cfg: Config, s: Step, marks: Marks)
    ensures ComparedSoFar(cfg, s, marks, Index(s.now).Keys, [], [], marks)
  {
    hide Reports;
    hide MarksSoFar;
    hide Index;
    NothingReported(cfg, s, marks);
    assert Index(s.now).Keys - Index(s.now).Keys == {};
  }

  lemma ComparedStep(cfg: Config, s: Step, marks: Marks, todo: set<Key>, key: Key, out: seq<Event>, more: seq<Event>,
                     sent: seq<Announcement>, before: Marks)
    requires ComparedSoFar(cfg, s, marks, todo, out, sent, before) && key in todo && todo <= Index(s.now).Keys
    requires Reports(more, ServiceChanges(cfg, s), CELL, CellsOf({key}))
    ensures var i, force := Index(s.now)[key], key !in Index(s.was);
            ComparedSoFar(cfg, s, marks, todo - {key}, out + more, sent + Sent(cfg, before, s.at, i, force),
                          Remember(cfg, before, s.at, i, force))
  {
    hide Reports;
    hide MarksSoFar;
    hide Index;
    hide Sent;
    hide Remember;
    hide CellsOf;
    hide Among;
    hide Filed;
    var all := Index(s.now).Keys;
    var done := all - todo;
    CellsNext(all, todo, key);
    AmongNext(all, todo, key);
    AnnouncesFiled(cfg, s, marks);
    ReportsJoin(out, more, ServiceChanges(cfg, s), CELL, CellsOf(done), CellsOf({key}));
    ReportsNext(sent, Announces(cfg, s, marks), ANNOUNCED, Among(done), key);
    SentIsReport(cfg, s, marks, before, done, key);
    assert all - (todo - {key}) == done + {key};
  }

  lemma ComparedDone(cfg: Config, s: Step, marks: Marks, out: seq<Event>, sent: seq<Announcement>, after: Marks)
    requires ComparedSoFar(cfg, s, marks, {}, out, sent, after)
    ensures Reports(out, ServiceChanges(cfg, s), CELL, CellsOf(Index(s.now).Keys))
    ensures Reports(sent, Announces(cfg, s, marks), ANNOUNCED, Among(Index(s.now).Keys))
    ensures MarksSoFar(cfg, s, marks, after, Index(s.now).Keys)
  {
    hide Reports;
    hide MarksSoFar;
    hide Index;
    assert Index(s.now).Keys - {} == Index(s.now).Keys;
  }

  ghost predicate DepartedSoFar(cfg: Config, s: Step, marks: Marks, todo: set<Key>, out: seq<Event>, after: Marks) {
    var was, now := Index(s.was).Keys, Index(s.now).Keys;
    var done := (was - now) - (todo - now);
    Reports(out, ServiceChanges(cfg, s), CELL, CellsOf(done)) && MarksSoFar(cfg, s, marks, after, now + done)
  }

  lemma DepartedStart(cfg: Config, s: Step, marks: Marks, current: Marks)
    requires MarksSoFar(cfg, s, marks, current, Index(s.now).Keys)
    ensures DepartedSoFar(cfg, s, marks, Index(s.was).Keys, [], current)
  {
    hide Reports;
    hide MarksSoFar;
    hide Index;
    NothingReported(cfg, s, marks);
    var was, now := Index(s.was).Keys, Index(s.now).Keys;
    assert (was - now) - (was - now) == {} && now + {} == now;
  }

  lemma DepartedStep(cfg: Config, s: Step, marks: Marks, todo: set<Key>, key: Key, out: seq<Event>, more: seq<Event>,
                     before: Marks)
    requires DepartedSoFar(cfg, s, marks, todo, out, before) && key in todo && todo <= Index(s.was).Keys
    requires if key in Index(s.now) then more == [] else Reports(more, ServiceChanges(cfg, s), CELL, CellsOf({key}))
    ensures DepartedSoFar(cfg, s, marks, todo - {key}, out + more,
                          if key in Index(s.now) then before else before - {key})
  {
    hide Reports;
    hide MarksSoFar;
    hide Index;
    hide CellsOf;
    var was, now := Index(s.was).Keys, Index(s.now).Keys;
    var all, left := was - now, todo - now;
    if key in now {
      assert (todo - {key}) - now == left && out + more == out;
    } else {
      CellsNext(all, left, key);
      ReportsJoin(out, more, ServiceChanges(cfg, s), CELL, CellsOf(all - left), CellsOf({key}));
      DepartedMark(cfg, s, marks, before, now + (all - left), key);
      assert (todo - {key}) - now == left - {key};
      assert now + (all - (left - {key})) == now + (all - left) + {key};
    }
  }

  lemma DepartedDone(cfg: Config, s: Step, marks: Marks, out: seq<Event>, after: Marks)
    requires DepartedSoFar(cfg, s, marks, {}, out, after)
    ensures Reports(out, ServiceChanges(cfg, s), CELL, CellsOf(Index(s.was).Keys - Index(s.now).Keys))
    ensures MarksSoFar(cfg, s, marks, after, Index(s.now).Keys + Index(s.was).Keys)
  {
    hide Reports;
    hide MarksSoFar;
    hide Index;
    var was, now := Index(s.was).Keys, Index(s.now).Keys;
    assert (was - now) - ({} - now) == was - now;
    assert now + (was - now) == now + was;
  }

  lemma AllChecksReported(base: Event, was: map<string, Check>, now: map<string, Check>, current: seq<Event>,
                          gone: seq<Event>)
    requires Reports(current, CheckChanges(base, was, now), CHECK_ID, Among(now.Keys))
    requires Reports(gone, CheckChanges(base, was, now), CHECK_ID, Among(was.Keys - now.Keys))
    ensures Reports(current + gone, CheckChanges(base, was, now), CHECK_ID, Every())
  {
    hide Reports;
    var change := CheckChanges(base, was, now);
    ReportsJoin(current, gone, change, CHECK_ID, Among(now.Keys), Among(was.Keys - now.Keys));
    ReportsMore(current + gone, change, CHECK_ID, Among(now.Keys) + Among(was.Keys - now.Keys), Every());
  }

  lemma NothingReported(cfg: Config, s: Step, marks: Marks)
    ensures Reports([], ServiceChanges(cfg, s), CELL, CellsOf({}))
    ensures Reports([], Announces(cfg, s, marks), ANNOUNCED, Among({}))
    ensures MarksSoFar(cfg, s, marks, marks, {})
  {
    hide ServiceChange;
    hide Index;
    hide Due;
  }

  /** The marks when some instances have been dealt with. */
  ghost predicate MarksSoFar(cfg: Config, s: Step, marks: Marks, after: Marks, covered: set<Key>) {
    forall key :: Lookup(after, key) == if key in covered then MarkAfter(cfg, s, marks, key) else Lookup(marks, key)
  }

  /** What is sent for one instance is its report, and its mark is the one it gets. */
  lemma SentIsReport(cfg: Config, s: Step, marks: Marks, before: Marks, covered: set<Key>, key: Key)
    requires key in Index(s.now) && key !in covered && MarksSoFar(cfg, s, marks, before, covered)
    ensures var i, force := Index(s.now)[key], key !in Index(s.was);
            && ToList(Announces(cfg, s, marks)(key)) == Sent(cfg, before, s.at, i, force)
            && MarksSoFar(cfg, s, marks, Remember(cfg, before, s.at, i, force), covered + {key})
  {
    var i := Index(s.now)[key];
    assert i.Key() == key;
    assert Lookup(before, key) == Lookup(marks, key);
    hide Index;
    hide FirstSet;
    hide Fingerprint;
    var after := Remember(cfg, before, s.at, i, key !in Index(s.was));
    forall other
      ensures Lookup(after, other) ==
              if other in covered + {key} then MarkAfter(cfg, s, marks, other) else Lookup(marks, other)
    {
      assert Lookup(before, other) ==
             if other in covered then MarkAfter(cfg, s, marks, other) else Lookup(marks, other);
    }
  }

  lemma DepartedMark(cfg: Config, s: Step, marks: Marks, before: Marks, covered: set<Key>, key: Key)
    requires key in Index(s.was) && key !in Index(s.now) && MarksSoFar(cfg, s, marks, before, covered)
    ensures MarksSoFar(cfg, s, marks, before - {key}, covered + {key})
  {
    hide Index;
    hide Due;
    forall other
      ensures Lookup(before - {key}, other) ==
              if other in covered + {key} then MarkAfter(cfg, s, marks, other) else Lookup(marks, other)
    {
      assert Lookup(before, other) ==
             if other in covered then MarkAfter(cfg, s, marks, other) else Lookup(marks, other);
    }
  }

  lemma AllAnnounced(cfg: Config, s: Step, marks: Marks, sent: seq<Announcement>)
    requires Reports(sent, Announces(cfg, s, marks), ANNOUNCED, Among(Index(s.now).Keys))
    ensures Reports(sent, Announces(cfg, s, marks), ANNOUNCED, Every())
  {
    hide Reports;
    hide Index;
    hide Due;
    ReportsMore(sent, Announces(cfg, s, marks), ANNOUNCED, Among(Index(s.now).Keys), Every());
  }

  lemma OtherMarks(cfg: Config, s: Step, marks: Marks, after: Marks)
    requires MarksSoFar(cfg, s, marks, after, Index(s.now).Keys + Index(s.was).Keys)
    ensures after == MarksAfter(cfg, s, marks)
  {
    hide Index;
    hide Due;
    hide MarksAfter;
    MarksAre(cfg, s, marks, after);
  }

  lemma QuietRound(cfg: Config, l: Loop, input: Input)
    requires input.Cancelled? || input.Failed?
    ensures Emits(cfg, l, input, []) && Sends(cfg, l, input, []) && Next(cfg, l, input) == l
  {}

  ghost predicate Logged(cfg: Config, inputs: seq<Input>, used: nat, l: Loop, batches: seq<seq<Event>>,
                         lists: seq<seq<Announcement>>)
    requires used <= |inputs|
  {
    && l == After(cfg, inputs[..used]) && Safe(cfg, inputs[..used])
    && Emitted(cfg, inputs[..used], batches) && Announced(cfg, inputs[..used], lists)
  }

  lemma NoCrash(l: Loop, input: Input)
    requires !input.Fetched?
    ensures !Crashes(l, input)
  {}

  lemma NothingLogged(cfg: Config, inputs: seq<Input>)
    ensures Logged(cfg, inputs, 0, START, [], []) && Concat<Event>([]) == [] && Concat<Announcement>([]) == []
  {}

  lemma LogRead(cfg: Config, inputs: seq<Input>, used: nat, l: Loop, batches: seq<seq<Event>>,
                lists: seq<seq<Announcement>>)
    requires used <= |inputs| && Logged(cfg, inputs, used, l, batches, lists)
    ensures l == After(cfg, inputs[..used]) && Safe(cfg, inputs[..used])
    ensures Emitted(cfg, inputs[..used], batches) && Announced(cfg, inputs[..used], lists)
  {
    hide Emitted;
    hide Announced;
    hide Safe;
    hide After;
  }

  lemma AfterRound(cfg: Config, inputs: seq<Input>, used: nat)
    requires used < |inputs|
    ensures After(cfg, inputs[..used + 1]) == Next(cfg, After(cfg, inputs[..used]), inputs[used])
  {
    hide Next;
    assert inputs[..used + 1][..used] == inputs[..used];
  }

  lemma EmittedMore(cfg: Config, inputs: seq<Input>, used: nat, batches: seq<seq<Event>>, out: seq<Event>)
    requires used < |inputs| && Emitted(cfg, inputs[..used], batches)
    requires Emits(cfg, After(cfg, inputs[..used]), inputs[used], out)
    ensures Emitted(cfg, inputs[..used + 1], batches + [out])
  {
    hide Emits;
    hide After;
    Prefixes(inputs, used);
    forall i | 0 <= i < used
      ensures Emits(cfg, After(cfg, inputs[..i]), inputs[i], batches[i])
    {
      assert inputs[..used][i] == inputs[i];
    }
  }

  lemma AnnouncedMore(cfg: Config, inputs: seq<Input>, used: nat, lists: seq<seq<Announcement>>,
                      sent: seq<Announcement>)
    requires used < |inputs| && Announced(cfg, inputs[..used], lists)
    requires Sends(cfg, After(cfg, inputs[..used]), inputs[used], sent)
    ensures Announced(cfg, inputs[..used + 1], lists + [sent])
  {
    hide Sends;
    hide After;
    Prefixes(inputs, used);
    forall i | 0 <= i < used
      ensures Sends(cfg, After(cfg, inputs[..i]), inputs[i], lists[i])
    {
      assert inputs[..used][i] == inputs[i];
    }
  }

  lemma SafeMore(cfg: Config, inputs: seq<Input>, used: nat)
    requires used < |inputs| && Safe(cfg, inputs[..used]) && !Crashes(After(cfg, inputs[..used]), inputs[used])
    ensures Safe(cfg, inputs[..used + 1])
  {
    hide Crashes;
    hide After;
    Prefixes(inputs, used);
    forall i | 0 <= i < used
      ensures !Crashes(After(cfg, inputs[..i]), inputs[i])
    {
      assert inputs[..used][i] == inputs[i];
    }
  }

  lemma LogMore(cfg: Config, inputs: seq<Input>, used: nat, l: Loop, batches: seq<seq<Event>>,
                lists: seq<seq<Announcement>>,
                out: seq<Event>, sent: seq<Announcement>)
    requires used < |inputs| && Logged(cfg, inputs, used, l, batches, lists)
    requires Emits(cfg, l, inputs[used], out) && Sends(cfg, l, inputs[used], sent) && !Crashes(l, inputs[used])
    ensures Logged(cfg, inputs, used + 1, Next(cfg, l, inputs[used]), batches + [out], lists + [sent])
    ensures Concat(batches + [out]) == Concat(batches) + out && Concat(lists + [sent]) == Concat(lists) + sent
  {
    AfterRound(cfg, inputs, used);
    SafeMore(cfg, inputs, used);
    ConcatAppend(batches, out);
    ConcatAppend(lists, sent);
    EmittedMore(cfg, inputs, used, batches, out);
    AnnouncedMore(cfg, inputs, used, lists, sent);
  }
}
