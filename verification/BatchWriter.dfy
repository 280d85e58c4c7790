/** The batch writer (storage/writer.go): events and instances are taken from two queues, batched
    and written with retries. What the queues, the clock and the storage do is input. */
module BatchWriter {
  import opened Timeline
  import opened Compare
  import opened Sequences

  const DEFAULT_BATCH := 500
  const MAX_ATTEMPTS := 3

  // ---- writing one batch -----------------------------------------------------

  /** One write of a batch: it succeeds, or fails, in which case the context may be over by then
      or may end during the pause before the next attempt. */
  datatype Try = Succeeds | Fails(over: bool, cut: bool)

  /** What the storage and the context do during one call of `persist`. */
  datatype Tries = Tries(first: Try, second: Try, third: Try)
  {
    function At(attempt: nat): Try {
      if attempt == 1 then first else if attempt == 2 then second else third
    }
  }

  /** A batch is stored, or dropped and counted, or abandoned uncounted when the context ends
      during a pause. */
  datatype Outcome = Stored | Dropped | Abandoned

  /** What becomes of a batch from some attempt on. */
  function Persisted(t: Tries, attempt: nat): Outcome
    requires 1 <= attempt <= MAX_ATTEMPTS
    decreases MAX_ATTEMPTS - attempt
  {
    match t.At(attempt)
    case Succeeds => Stored
    case Fails(over, cut) =>
      if attempt >= MAX_ATTEMPTS || over then Dropped else if cut then Abandoned else Persisted(t, attempt + 1)
  }

  /** A batch is stored if one of the first three attempts succeeds before the context ends;
      otherwise it is abandoned if the context ends in a pause, and dropped if not. */
  lemma PersistedExactly(t: Tries)
    ensures Persisted(t, 1).Stored? <==>
            || t.first.Succeeds?
            || (t.first == Fails(false, false) && t.second.Succeeds?)
            || (t.first == Fails(false, false) && t.second == Fails(false, false) && t.third.Succeeds?)
    ensures Persisted(t, 1).Abandoned? <==>
            t.first == Fails(false, true) || (t.first == Fails(false, false) && t.second == Fails(false, true))
  {
    assert Persisted(t, 3) == if t.third.Succeeds? then Stored else Dropped;
    assert t.second == Fails(false, false) ==> Persisted(t, 2) == Persisted(t, 3);
  }

  // ---- one queue -------------------------------------------------------------

  /** What was received, in order; what waits to be written; and the batches made, with what
      became of each. */
  datatype Lane<T> = Lane(received: seq<T>, pending: seq<T>, batches: seq<(Outcome, seq<T>)>)

  function Received<T>(l: Lane<T>, x: T): Lane<T> {
    Lane(l.received + [x], l.pending + [x], l.batches)
  }

  function Flushed<T>(l: Lane<T>, t: Tries): Lane<T> {
    if l.pending == [] then l else Lane(l.received, [], l.batches + [(Persisted(t, 1), l.pending)])
  }

  function Joined<T>(batches: seq<(Outcome, seq<T>)>): seq<T> {
    if batches == [] then [] else Joined(batches[..|batches| - 1]) + batches[|batches| - 1].1
  }

  /** How many of the elements met a given end. */
  function Tally<T>(batches: seq<(Outcome, seq<T>)>, outcome: Outcome): nat {
    if batches == [] then 0
    else
      var (o, batch) := batches[|batches| - 1];
      Tally(batches[..|batches| - 1], outcome) + if o == outcome then |batch| else 0
  }

  /** The batches that were stored, in order. */
  function StoredIn<T>(batches: seq<(Outcome, seq<T>)>): seq<seq<T>> {
    if batches == [] then []
    else
      var (o, batch) := batches[|batches| - 1];
      StoredIn(batches[..|batches| - 1]) + if o == Stored then [batch] else []
  }

  /** Every element received is in exactly one batch or still pending, at its place: the batches
      and what is pending, one after the other, are what was received. */
  ghost predicate Conserved<T>(l: Lane<T>) {
    && l.received == Joined(l.batches) + l.pending
    && (forall i | 0 <= i < |l.batches| :: l.batches[i].1 != [])
  }

  lemma ReceivedConserved<T>(l: Lane<T>, x: T)
    requires Conserved(l)
    ensures Conserved(Received(l, x))
  {
    assert Joined(l.batches) + l.pending + [x] == Joined(l.batches) + (l.pending + [x]);
  }

  lemma FlushedConserved<T>(l: Lane<T>, t: Tries)
    requires Conserved(l)
    ensures Conserved(Flushed(l, t)) && Flushed(l, t).pending == []
  {
    var m := Flushed(l, t);
    if l.pending != [] {
      assert m.batches[..|m.batches| - 1] == l.batches;
    }
  }

  lemma {:induction false} TallyAll<T>(batches: seq<(Outcome, seq<T>)>)
    ensures |Joined(batches)| == Tally(batches, Stored) + Tally(batches, Dropped) + Tally(batches, Abandoned)
  {
    if batches != [] {
      TallyAll(batches[..|batches| - 1]);
    }
  }

  /** Nothing is counted twice and nothing is lost sight of. */
  lemma LaneAddsUp<T>(l: Lane<T>)
    requires Conserved(l)
    ensures |l.received| == Tally(l.batches, Stored) + Tally(l.batches, Dropped) + Tally(l.batches, Abandoned)
            + |l.pending|
  {
    TallyAll(l.batches);
  }

  lemma {:induction false} JoinedPrefix<T>(batches: seq<(Outcome, seq<T>)>, i: nat)
    requires i < |batches|
    ensures var start := |Joined(batches[..i])|;
            && start + |batches[i].1| <= |Joined(batches)|
            && Joined(batches)[start..start + |batches[i].1|] == batches[i].1
  {
    var n := |batches| - 1;
    var init := batches[..n];
    if i < n {
      JoinedPrefix(init, i);
      assert init[..i] == batches[..i];
      var start := |Joined(batches[..i])|;
      assert Joined(batches)[start..start + |batches[i].1|] == Joined(init)[start..start + |batches[i].1|];
    } else {
      assert batches[..i] == init;
    }
  }

  lemma {:induction false} JoinedGrows<T>(batches: seq<(Outcome, seq<T>)>, i: nat, j: nat)
    requires i < j <= |batches|
    ensures |Joined(batches[..i])| + |batches[i].1| <= |Joined(batches[..j])|
  {
    assert batches[..j][..j - 1] == batches[..j - 1];
    if i < j - 1 {
      JoinedGrows(batches, i, j - 1);
    }
  }

  /** Each batch is a contiguous piece of what was received, and a later batch a later piece, so
      stored batches never overlap and keep the order. */
  lemma BatchesAreSegments<T>(l: Lane<T>, i: nat, j: nat)
    requires Conserved(l) && i < j < |l.batches|
    ensures var a, b := |Joined(l.batches[..i])|, |Joined(l.batches[..j])|;
            && a + |l.batches[i].1| <= b && b + |l.batches[j].1| <= |l.received|
            && l.received[a..a + |l.batches[i].1|] == l.batches[i].1
            && l.received[b..b + |l.batches[j].1|] == l.batches[j].1
  {
    JoinedPrefix(l.batches, i);
    JoinedPrefix(l.batches, j);
    JoinedGrows(l.batches, i, j);
    var a, b := |Joined(l.batches[..i])|, |Joined(l.batches[..j])|;
    assert l.received[a..a + |l.batches[i].1|] == Joined(l.batches)[a..a + |l.batches[i].1|];
    assert l.received[b..b + |l.batches[j].1|] == Joined(l.batches)[b..b + |l.batches[j].1|];
  }

  // ---- the main loop ---------------------------------------------------------

  datatype Item = Ev(event: Event) | Inst(instance: Announcement)

  /** What one round of the main loop meets, with what the storage does if it flushes. */
  datatype Input =
    | Next(item: Item, events: Tries, instances: Tries)
    | Tick(events: Tries, instances: Tries)
    | Cancelled(queued: seq<Item>, events: Tries, instances: Tries)

  datatype State = State(events: Lane<Event>, instances: Lane<Announcement>)

  const EMPTY := State(Lane([], [], []), Lane([], [], []))

  function Put(s: State, item: Item): State {
    match item
    case Ev(e) => s.(events := Received(s.events, e))
    case Inst(i) => s.(instances := Received(s.instances, i))
  }

  function Drained(s: State, queued: seq<Item>): State {
    if queued == [] then s else Put(Drained(s, queued[..|queued| - 1]), queued[|queued| - 1])
  }

  function FlushBoth(s: State, events: Tries, instances: Tries): State {
    State(Flushed(s.events, events), Flushed(s.instances, instances))
  }

  /** Whether the queue that just grew is full. */
  predicate Full(s: State, item: Item, size: nat) {
    if item.Ev? then |s.events.pending| >= size else |s.instances.pending| >= size
  }

  function Round(s: State, input: Input, size: nat): State {
    match input
    case Next(item, events, instances) =>
      var t := Put(s, item);
      if Full(t, item, size) then FlushBoth(t, events, instances) else t
    case Tick(events, instances) => FlushBoth(s, events, instances)
    case Cancelled(queued, events, instances) => FlushBoth(Drained(s, queued), events, instances)
  }

  function After(inputs: seq<Input>, size: nat): State {
    if inputs == [] then EMPTY else Round(After(inputs[..|inputs| - 1], size), inputs[|inputs| - 1], size)
  }

  /** The items that reached the writer. */
  function Items(inputs: seq<Input>): seq<Item> {
    if inputs == [] then []
    else
      match inputs[|inputs| - 1]
      case Next(item, _, _) => Items(inputs[..|inputs| - 1]) + [item]
      case Tick(_, _) => Items(inputs[..|inputs| - 1])
      case Cancelled(queued, _, _) => Items(inputs[..|inputs| - 1]) + queued
  }

  function EventsOf(items: seq<Item>): seq<Event> {
    if items == [] then []
    else EventsOf(items[..|items| - 1]) + if items[|items| - 1].Ev? then [items[|items| - 1].event] else []
  }

  function InstancesOf(items: seq<Item>): seq<Announcement> {
    if items == [] then []
    else InstancesOf(items[..|items| - 1]) + if items[|items| - 1].Inst? then [items[|items| - 1].instance] else []
  }

  ghost predicate BothConserved(s: State) {
    Conserved(s.events) && Conserved(s.instances)
  }

  /** Both queues hold less than a batch. */
  predicate Small(s: State, size: nat) {
    |s.events.pending| < size && |s.instances.pending| < size
  }

  lemma {:induction false} DrainedKeeps(s: State, queued: seq<Item>)
    requires BothConserved(s)
    ensures var t := Drained(s, queued);
            && BothConserved(t)
            && t.events.received == s.events.received + EventsOf(queued)
            && t.instances.received == s.instances.received + InstancesOf(queued)
            && t.events.batches == s.events.batches && t.instances.batches == s.instances.batches
  {
    hide Conserved;
    if queued != [] {
      var before := Drained(s, queued[..|queued| - 1]);
      DrainedKeeps(s, queued[..|queued| - 1]);
      match queued[|queued| - 1]
      case Ev(e) => ReceivedConserved(before.events, e);
      case Inst(i) => ReceivedConserved(before.instances, i);
    }
  }

  lemma RoundKeeps(s: State, input: Input, size: nat)
    requires BothConserved(s) && size > 0
    ensures BothConserved(Round(s, input, size))
    ensures Small(s, size) ==> Small(Round(s, input, size), size)
    ensures input.Cancelled? ==>
              Round(s, input, size).events.pending == [] && Round(s, input, size).instances.pending == []
  {
    hide Conserved;
    match input
    case Next(item, events, instances) =>
      var t := Put(s, item);
      if item.Ev? {
        ReceivedConserved(s.events, item.event);
      } else {
        ReceivedConserved(s.instances, item.instance);
      }
      FlushedConserved(t.events, events);
      FlushedConserved(t.instances, instances);
    case Tick(events, instances) =>
      FlushedConserved(s.events, events);
      FlushedConserved(s.instances, instances);
    case Cancelled(queued, events, instances) =>
      DrainedKeeps(s, queued);
      FlushedConserved(Drained(s, queued).events, events);
      FlushedConserved(Drained(s, queued).instances, instances);
  }

  lemma {:induction false} EventsOfConcat(a: seq<Item>, b: seq<Item>)
    ensures EventsOf(a + b) == EventsOf(a) + EventsOf(b)
  {
    if b == [] {
      assert a + b == a;
    } else {
      EventsOfConcat(a, b[..|b| - 1]);
      assert (a + b)[..|a + b| - 1] == a + b[..|b| - 1];
    }
  }

  lemma {:induction false} InstancesOfConcat(a: seq<Item>, b: seq<Item>)
    ensures InstancesOf(a + b) == InstancesOf(a) + InstancesOf(b)
  {
    if b == [] {
      assert a + b == a;
    } else {
      InstancesOfConcat(a, b[..|b| - 1]);
      assert (a + b)[..|a + b| - 1] == a + b[..|b| - 1];
    }
  }

  lemma RoundReceives(s: State, input: Input, size: nat, items: seq<Item>)
    requires BothConserved(s) && s.events.received == EventsOf(items) && s.instances.received == InstancesOf(items)
    ensures var t := Round(s, input, size);
            var all := items + (match input
                                case Next(item, _, _) => [item]
                                case Tick(_, _) => []
                                case Cancelled(queued, _, _) => queued);
            t.events.received == EventsOf(all) && t.instances.received == InstancesOf(all)
  {
    match input
    case Next(item, _, _) => assert (items + [item])[..|items|] == items;
    case Tick(_, _) => assert items + [] == items;
    case Cancelled(queued, _, _) =>
      DrainedKeeps(s, queued);
      EventsOfConcat(items, queued);
      InstancesOfConcat(items, queued);
  }

  /** On every run, each event (and each instance) that reached the writer is in exactly one batch
      or pending, in the order it came; between rounds less than a batch is pending; and after a
      cancellation nothing is. */
  lemma {:induction false} WriterConserves(inputs: seq<Input>, size: nat)
    requires size > 0
    ensures var s := After(inputs, size);
            && BothConserved(s) && Small(s, size)
            && s.events.received == EventsOf(Items(inputs)) && s.instances.received == InstancesOf(Items(inputs))
            && (inputs != [] && inputs[|inputs| - 1].Cancelled? ==> s.events.pending == [] && s.instances.pending == [])
  {
    hide Conserved;
    if inputs == [] {
      EmptyConserved();
    } else {
      var init, last := inputs[..|inputs| - 1], inputs[|inputs| - 1];
      WriterConserves(init, size);
      RoundKeeps(After(init, size), last, size);
      RoundReceives(After(init, size), last, size, Items(init));
      hide Round;
      assert Items(init) + [] == Items(init);
    }
  }

  lemma EmptyConserved()
    ensures BothConserved(EMPTY)
  {}

  ghost predicate AtMost<T>(batches: seq<(Outcome, seq<T>)>, size: nat) {
    forall i | 0 <= i < |batches| :: |batches[i].1| <= size
  }

  lemma FlushedBounded<T>(l: Lane<T>, t: Tries, size: nat)
    requires AtMost(l.batches, size) && |l.pending| <= size
    ensures AtMost(Flushed(l, t).batches, size)
  {
    hide Persisted;
  }

  lemma RoundBounded(s: State, input: Input, size: nat)
    requires AtMost(s.events.batches, size) && AtMost(s.instances.batches, size) && Small(s, size) && !input.Cancelled?
    ensures AtMost(Round(s, input, size).events.batches, size) && AtMost(Round(s, input, size).instances.batches, size)
  {
    hide AtMost;
    hide Flushed;
    match input
    case Next(item, events, instances) =>
      FlushedBounded(Put(s, item).events, events, size);
      FlushedBounded(Put(s, item).instances, instances, size);
    case Tick(events, instances) =>
      FlushedBounded(s.events, events, size);
      FlushedBounded(s.instances, instances, size);
    case _ =>
  }

  /** Until the last flush of a cancelled run no batch is larger than the batch size. */
  lemma {:induction false} BatchesBounded(inputs: seq<Input>, size: nat)
    requires size > 0 && forall i | 0 <= i < |inputs| :: !inputs[i].Cancelled?
    ensures AtMost(After(inputs, size).events.batches, size) && AtMost(After(inputs, size).instances.batches, size)
  {
    hide Round;
    if inputs != [] {
      var init := inputs[..|inputs| - 1];
      BatchesBounded(init, size);
      WriterConserves(init, size);
      RoundBounded(After(init, size), inputs[|inputs| - 1], size);
    }
  }

  // ---- when batches are made ---------------------------------------------------

  /** A tick and a cancellation write whatever is pending. So does an item that fills its queue, for
      both queues; any other item only waits. */
  lemma RoundWrites(s: State, input: Input, size: nat)
    ensures var t := Round(s, input, size);
            match input
            case Next(item, _, _) =>
              if item.Ev? && |s.events.pending| + 1 < size then
                && t.instances == s.instances && t.events.batches == s.events.batches
                && t.events.pending == s.events.pending + [item.event]
              else if item.Inst? && |s.instances.pending| + 1 < size then
                && t.events == s.events && t.instances.batches == s.instances.batches
                && t.instances.pending == s.instances.pending + [item.instance]
              else t.events.pending == [] && t.instances.pending == []
            case _ => t.events.pending == [] && t.instances.pending == []
  {
    hide Persisted;
    hide Drained;
  }

  /** The storage takes every batch at the first attempt. */
  ghost predicate AllSucceed(inputs: seq<Input>) {
    forall i | 0 <= i < |inputs| :: inputs[i].events.first.Succeeds? && inputs[i].instances.first.Succeeds?
  }

  ghost predicate AllStored<T>(l: Lane<T>) {
    forall i | 0 <= i < |l.batches| :: l.batches[i].0 == Stored
  }

  lemma {:induction false} StoredJoined<T>(batches: seq<(Outcome, seq<T>)>)
    requires forall i | 0 <= i < |batches| :: batches[i].0 == Stored
    ensures Concat(StoredIn(batches)) == Joined(batches)
  {
    if batches != [] {
      var init := batches[..|batches| - 1];
      StoredJoined(init);
      ConcatAppend(StoredIn(init), batches[|batches| - 1].1);
    }
  }

  lemma FlushedStored<T>(l: Lane<T>, t: Tries)
    requires AllStored(l) && t.first.Succeeds?
    ensures AllStored(Flushed(l, t)) && l.batches <= Flushed(l, t).batches
  {}

  lemma {:induction false} DrainedLanes(s: State, queued: seq<Item>)
    ensures Drained(s, queued).events.batches == s.events.batches
    ensures Drained(s, queued).instances.batches == s.instances.batches
  {
    if queued != [] {
      DrainedLanes(s, queued[..|queued| - 1]);
    }
  }

  lemma RoundStored(s: State, input: Input, size: nat)
    requires AllStored(s.events) && AllStored(s.instances)
    requires input.events.first.Succeeds? && input.instances.first.Succeeds?
    ensures var t := Round(s, input, size);
            && AllStored(t.events) && AllStored(t.instances)
            && s.events.batches <= t.events.batches && s.instances.batches <= t.instances.batches
  {
    hide Flushed;
    var before := match input
                  case Next(item, _, _) => Put(s, item)
                  case Tick(_, _) => s
                  case Cancelled(queued, _, _) => Drained(s, queued);
    if input.Cancelled? {
      DrainedLanes(s, input.queued);
    }
    assert before.events.batches == s.events.batches && before.instances.batches == s.instances.batches;
    FlushedStored(before.events, input.events);
    FlushedStored(before.instances, input.instances);
    hide Drained;
    hide AllStored;
  }

  lemma NothingStored()
    ensures AllStored(EMPTY.events) && AllStored(EMPTY.instances)
  {}

  lemma {:induction false} RunStored(inputs: seq<Input>, size: nat)
    requires AllSucceed(inputs)
    ensures AllStored(After(inputs, size).events) && AllStored(After(inputs, size).instances)
  {
    hide Round;
    hide AllStored;
    NothingStored();
    if inputs != [] {
      RunStored(inputs[..|inputs| - 1], size);
      RoundStored(After(inputs[..|inputs| - 1], size), inputs[|inputs| - 1], size);
    }
  }

  lemma {:induction false} StoredGrows(inputs: seq<Input>, k: nat, size: nat)
    requires AllSucceed(inputs) && k <= |inputs|
    ensures After(inputs[..k], size).events.batches <= After(inputs, size).events.batches
    ensures After(inputs[..k], size).instances.batches <= After(inputs, size).instances.batches
  {
    if k == |inputs| {
      assert inputs[..k] == inputs;
    } else {
      var init := inputs[..|inputs| - 1];
      assert init[..k] == inputs[..k];
      StoredGrows(init, k, size);
      RunStored(init, size);
      hide Round;
      RoundStored(After(init, size), inputs[|inputs| - 1], size);
    }
  }

  lemma {:induction false} JoinedMore<T>(a: seq<(Outcome, seq<T>)>, b: seq<(Outcome, seq<T>)>)
    requires a <= b
    ensures Joined(a) <= Joined(b)
  {
    if a != b {
      assert a <= b[..|b| - 1];
      JoinedMore(a, b[..|b| - 1]);
    }
  }

  /** The batches of one queue, of which nothing was pending at some time. */
  lemma StoredBetween<T>(earlier: Lane<T>, later: Lane<T>)
    requires Conserved(earlier) && Conserved(later) && AllStored(later)
    requires earlier.pending == [] && earlier.batches <= later.batches
    ensures earlier.received <= Concat(StoredIn(later.batches)) <= later.received
  {
    StoredJoined(later.batches);
    JoinedMore(earlier.batches, later.batches);
  }

  /** If the storage takes every batch, then after a tick, and ever after, everything that reached the
      writer up to the tick is stored, in order; after a cancellation everything is. */
  lemma StoredByTick(inputs: seq<Input>, k: nat, size: nat)
    requires size > 0 && AllSucceed(inputs) && k < |inputs| && !inputs[k].Next?
    ensures var s := After(inputs, size);
            && EventsOf(Items(inputs[..k + 1])) <= Concat(StoredIn(s.events.batches)) <= EventsOf(Items(inputs))
            && InstancesOf(Items(inputs[..k + 1])) <= Concat(StoredIn(s.instances.batches))
            && Concat(StoredIn(s.instances.batches)) <= InstancesOf(Items(inputs))
  {
    hide Conserved;
    hide AllStored;
    hide Items;
    hide StoredIn;
    hide Concat;
    var upTo := inputs[..k + 1];
    assert upTo[..k] == inputs[..k] && upTo[k] == inputs[k];
    var t, s := After(upTo, size), After(inputs, size);
    RoundWrites(After(inputs[..k], size), inputs[k], size);
    hide Round;
    hide After;
    WriterConserves(upTo, size);
    WriterConserves(inputs, size);
    RunStored(inputs, size);
    StoredGrows(inputs, k + 1, size);
    hide AllSucceed;
    StoredBetween(t.events, s.events);
    StoredBetween(t.instances, s.instances);
  }

  /** What a flush adds to the stored batches and to the counts. */
  lemma FlushedAdds<T>(l: Lane<T>, t: Tries)
    ensures var (m, outcome) := (Flushed(l, t), Persisted(t, 1));
            if l.pending == [] then m == l
            else
              && m.pending == []
              && StoredIn(m.batches) == StoredIn(l.batches) + (if outcome == Stored then [l.pending] else [])
              && Tally(m.batches, Dropped) == Tally(l.batches, Dropped) + if outcome == Dropped then |l.pending| else 0
  {
    var m := Flushed(l, t);
    if l.pending != [] {
      assert m.batches[..|m.batches| - 1] == l.batches;
    }
  }

  // ---- the writer as it runs -------------------------------------------------

  /** The storage behind the writer: the batches it accepted, and the counters of what was
      dropped. */
  class Writer {
    const size: nat
    var evBatch: seq<Event>
    var instBatch: seq<Announcement>
    var storedEvents: seq<seq<Event>>
    var storedInstances: seq<seq<Announcement>>
    var droppedEvents: nat
    var droppedInstances: nat

    ghost var events: Lane<Event>
    ghost var instances: Lane<Announcement>

    ghost predicate Valid()
      reads this
    {
      && size > 0
      && evBatch == events.pending && instBatch == instances.pending
      && storedEvents == StoredIn(events.batches) && storedInstances == StoredIn(instances.batches)
      && droppedEvents == Tally(events.batches, Dropped) && droppedInstances == Tally(instances.batches, Dropped)
    }

    ghost function Now(): State
      reads this
    {
      State(events, instances)
    }

    constructor (batchSize: int)
      ensures Valid() && Now() == EMPTY && size == if batchSize <= 0 then DEFAULT_BATCH else batchSize
    {
      size := if batchSize <= 0 then DEFAULT_BATCH else batchSize;
      evBatch, instBatch, storedEvents, storedInstances, droppedEvents, droppedInstances := [], [], [], [], 0, 0;
      events, instances := EMPTY.events, EMPTY.instances;
    }

    /** At most three attempts, one and two seconds apart. */
    static method Persist(t: Tries) returns (outcome: Outcome, attempt: nat, waited: int)
      ensures outcome == Persisted(t, 1) && 1 <= attempt <= MAX_ATTEMPTS
      ensures waited == (if attempt == 1 then 0 else if attempt == 2 then 1 else 3) * SECOND
      ensures attempt >= 2 <==> t.first == Fails(false, false)
      ensures attempt == 3 <==> t.first == Fails(false, false) && t.second == Fails(false, false)
    {
      var backoff := SECOND;
      attempt, waited := 1, 0;
      while true
        invariant 1 <= attempt <= MAX_ATTEMPTS && Persisted(t, 1) == Persisted(t, attempt)
        invariant attempt >= 2 ==> t.first == Fails(false, false)
        invariant attempt == 3 ==> t.second == Fails(false, false)
        invariant waited + SECOND == backoff
                  && backoff == (if attempt == 1 then 1 else if attempt == 2 then 2 else 4) * SECOND
        decreases MAX_ATTEMPTS - attempt
      {
        match t.At(attempt)
        case Succeeds => return Stored, attempt, waited;
        case Fails(over, cut) =>
          if attempt >= MAX_ATTEMPTS || over {
            return Dropped, attempt, waited;
          }
          if cut {
            return Abandoned, attempt, waited;
          }
          waited := waited + backoff;
          backoff := backoff * 2;
          attempt := attempt + 1;
      }
    }

    method FlushEvents(t: Tries)
      requires Valid()
      modifies `evBatch, `storedEvents, `droppedEvents, `events
      ensures Valid() && events == Flushed(old(events), t)
    {
      FlushedAdds(events, t);
      hide Flushed;
      hide StoredIn;
      hide Tally;
      hide Persisted;
      if |evBatch| > 0 {
        var outcome, attempt, waited := Persist(t);
        events := Flushed(events, t);
        if outcome == Stored {
          storedEvents := storedEvents + [evBatch];
        } else if outcome == Dropped {
          droppedEvents := droppedEvents + |evBatch|;
        }
        evBatch := [];
      }
    }

    method FlushInstances(t: Tries)
      requires Valid()
      modifies `instBatch, `storedInstances, `droppedInstances, `instances
      ensures Valid() && instances == Flushed(old(instances), t)
    {
      FlushedAdds(instances, t);
      hide Flushed;
      hide StoredIn;
      hide Tally;
      hide Persisted;
      if |instBatch| > 0 {
        var outcome, attempt, waited := Persist(t);
        instances := Flushed(instances, t);
        if outcome == Stored {
          storedInstances := storedInstances + [instBatch];
        } else if outcome == Dropped {
          droppedInstances := droppedInstances + |instBatch|;
        }
        instBatch := [];
      }
    }

    method Take(item: Item)
      requires Valid()
      modifies `evBatch, `instBatch, `events, `instances
      ensures Valid() && Now() == Put(old(Now()), item)
    {
      match item
      case Ev(e) =>
        evBatch := evBatch + [e];
        events := Received(events, e);
      case Inst(i) =>
        instBatch := instBatch + [i];
        instances := Received(instances, i);
    }

    method Drain(queued: seq<Item>)
      requires Valid()
      modifies `evBatch, `instBatch, `events, `instances
      ensures Valid() && Now() == Drained(old(Now()), queued)
    {
      for k := 0 to |queued|
        invariant Valid() && Now() == Drained(old(Now()), queued[..k])
      {
        assert queued[..k + 1][..k] == queued[..k];
        Take(queued[k]);
      }
      assert queued[..|queued|] == queued;
    }

    /** The main loop, as far as the inputs go; a cancellation ends it. */
    method Run(inputs: seq<Input>) returns (used: nat)
      requires Valid() && Now() == EMPTY
      modifies this
      ensures Valid() && used <= |inputs| && Now() == After(inputs[..used], size)
      ensures used < |inputs| ==> used > 0 && inputs[used - 1].Cancelled?
      ensures forall i | 0 <= i < used - 1 :: !inputs[i].Cancelled?
    {
      hide Flushed;
      hide Drained;
      hide StoredIn;
      hide Tally;
      hide After;
      used := 0;
      NothingYet(inputs, size);
      while used < |inputs|
        invariant used <= |inputs| && Valid() && Now() == After(inputs[..used], size)
        invariant forall i | 0 <= i < used :: !inputs[i].Cancelled?
      {
        var input := inputs[used];
        AfterOne(inputs, used, size);
        match input {
          case Cancelled(queued, eventTries, instanceTries) =>
            Drain(queued);
            FlushEvents(eventTries);
            FlushInstances(instanceTries);
            used := used + 1;
            return;
          case Next(item, eventTries, instanceTries) =>
            Take(item);
            if (item.Ev? && |evBatch| >= size) || (item.Inst? && |instBatch| >= size) {
              FlushEvents(eventTries);
              FlushInstances(instanceTries);
            }
          case Tick(eventTries, instanceTries) =>
            FlushEvents(eventTries);
            FlushInstances(instanceTries);
        }
        used := used + 1;
      }
    }
  }

  lemma NothingYet(inputs: seq<Input>, size: nat)
    ensures After(inputs[..0], size) == EMPTY
  {}

  lemma AfterOne(inputs: seq<Input>, used: nat, size: nat)
    requires used < |inputs|
    ensures After(inputs[..used + 1], size) == Round(After(inputs[..used], size), inputs[used], size)
  {
    hide Round;
    assert inputs[..used + 1][..used] == inputs[..used];
  }
}
