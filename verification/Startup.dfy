/** Which services and nodes are watched, and when the watcher is ready (watch/watch.go). Every
    step here happens under a lock, so an interleaving of the goroutines is a sequence of them. */
module Startup {
  // ---- the counter -----------------------------------------------------------

  datatype Counter = Counter(lists: nat, pending: int, closed: bool, closes: nat)

  const ZERO := Counter(0, 0, false, 0)

  /** Closes the channel if both lists are there and nothing is outstanding. */
  function Checked(c: Counter): Counter {
    if !c.closed && c.lists == 2 && c.pending <= 0 then c.(closed := true, closes := c.closes + 1) else c
  }

  function AfterList(c: Counter, children: nat): Counter {
    Checked(c.(lists := c.lists + 1, pending := c.pending + children))
  }

  function AfterChild(c: Counter): Counter {
    Checked(c.(pending := c.pending - 1))
  }

  class Readiness {
    var lists: nat
    var pending: int
    var closed: bool
    var closes: nat  // how often the channel was closed

    function State(): Counter
      reads this
    {
      Counter(lists, pending, closed, closes)
    }

    constructor ()
      ensures State() == ZERO
    {
      lists, pending, closed, closes := 0, 0, false, 0;
    }

    method ListArrived(children: nat)
      modifies this
      ensures State() == AfterList(old(State()), children)
    {
      lists := lists + 1;
      pending := pending + children;
      Check();
    }

    method ChildReady()
      modifies this
      ensures State() == AfterChild(old(State()))
    {
      pending := pending - 1;
      Check();
    }

    method Check()
      modifies this
      ensures State() == Checked(old(State()))
    {
      if !closed && lists == 2 && pending <= 0 {
        closed := true;
        closes := closes + 1;
      }
    }
  }

  // ---- every interleaving ----------------------------------------------------

  /** One of the two lists (services, nodes): how many children it started and how many of them
      have finished their first fetch, and whether it has been counted. */
  datatype Progress = Progress(started: nat, finished: nat, arrived: bool)

  datatype World = World(counter: Counter, services: Progress, nodes: Progress)
  {
    function Of(ofServices: bool): Progress { if ofServices then services else nodes }

    function With(ofServices: bool, p: Progress): World {
      if ofServices then this.(services := p) else this.(nodes := p)
    }
  }

  /** A list starts its children one by one and is counted once, after the last of them; a child
      may finish before its list is counted. */
  datatype Event = Started(ofServices: bool) | Arrived(ofServices: bool) | Finished(ofServices: bool)

  predicate Possible(w: World, e: Event) {
    var p := w.Of(e.ofServices);
    match e
    case Started(_) => !p.arrived
    case Arrived(_) => !p.arrived
    case Finished(_) => p.finished < p.started
  }

  function Next(w: World, e: Event): World {
    var p := w.Of(e.ofServices);
    match e
    case Started(_) => w.With(e.ofServices, p.(started := p.started + 1))
    case Arrived(_) => w.With(e.ofServices, p.(arrived := true)).(counter := AfterList(w.counter, p.started))
    case Finished(_) => w.With(e.ofServices, p.(finished := p.finished + 1)).(counter := AfterChild(w.counter))
  }

  const NOTHING := World(ZERO, Progress(0, 0, false), Progress(0, 0, false))

  function After(events: seq<Event>): World {
    if events == [] then NOTHING else Next(After(events[..|events| - 1]), events[|events| - 1])
  }

  ghost predicate AllPossible(events: seq<Event>) {
    forall i | 0 <= i < |events| :: Possible(After(events[..i]), events[i])
  }

  function Announced(p: Progress): nat {
    if p.arrived then p.started else 0
  }

  /** Both lists counted, and every child of both has been fetched. */
  predicate Everything(w: World) {
    && w.services.arrived && w.nodes.arrived
    && w.services.finished == w.services.started && w.nodes.finished == w.nodes.started
  }

  ghost predicate Balanced(w: World) {
    && w.counter.pending == Announced(w.services) + Announced(w.nodes) - w.services.finished - w.nodes.finished
    && w.counter.lists == (if w.services.arrived then 1 else 0) + (if w.nodes.arrived then 1 else 0)
    && w.services.finished <= w.services.started && w.nodes.finished <= w.nodes.started
    && (w.counter.closed <==> Everything(w))
    && w.counter.closes == if Everything(w) then 1 else 0
  }

  lemma NextBalanced(w: World, e: Event)
    requires Balanced(w) && Possible(w, e)
    ensures Balanced(Next(w, e))
  {}

  /** In every interleaving what is pending is what was announced less what finished (so it may
      be negative), and the channel is closed exactly when everything has been fetched, once. */
  lemma {:induction false} ReadyExactly(events: seq<Event>)
    requires AllPossible(events)
    ensures Balanced(After(events))
  {
    hide Balanced;
    hide Possible;
    hide Next;
    if events == [] {
      NothingBalanced();
    } else {
      var n := |events| - 1;
      forall i | 0 <= i < n
        ensures Possible(After(events[..n][..i]), events[..n][i])
      {
        assert events[..n][..i] == events[..i];
      }
      ReadyExactly(events[..n]);
      NextBalanced(After(events[..n]), events[n]);
    }
  }

  lemma NothingBalanced()
    ensures Balanced(NOTHING)
  {}

  /** A counter that goes negative before the lists are counted. */
  lemma PendingMayBeNegative()
    ensures var events := [Started(true), Finished(true)];
            AllPossible(events) && After(events).counter.pending == -1
  {
    var events := [Started(true), Finished(true)];
    assert events[..0] == [] && events[..1] == [Started(true)] && [Started(true)][..0] == [];
  }

  // ---- the sets of watches ---------------------------------------------------

  /** The running watches by name, each with its stop channel, the number of channels made and
      the channels closed: every running watch has its own channel, which is still open, and every
      other channel made is closed. */
  ghost predicate Sound(running: map<string, nat>, made: nat, closed: set<nat>) {
    && (forall name | name in running :: running[name] < made && running[name] !in closed)
    && (forall a, b | a in running && b in running && a != b :: running[a] != running[b])
    && (forall c | c in closed :: c < made)
    && (forall c: nat | c < made && c !in closed :: c in running.Values)
  }

  lemma StartSound(running: map<string, nat>, made: nat, closed: set<nat>, name: string)
    requires Sound(running, made, closed) && name !in running
    ensures Sound(running[name := made], made + 1, closed)
  {
    var after := running[name := made];
    forall c: nat | c < made + 1 && c !in closed
      ensures c in after.Values
    {
      if c == made {
        assert after[name] == c;
      } else {
        var k :| k in running && running[k] == c;
        assert after[k] == c;
      }
    }
  }

  lemma StopSound(running: map<string, nat>, made: nat, closed: set<nat>, name: string)
    requires Sound(running, made, closed) && name in running
    ensures running[name] !in closed && Sound(running - {name}, made, closed + {running[name]})
  {
    var after := running - {name};
    forall c: nat | c < made && c !in closed + {running[name]}
      ensures c in after.Values
    {
      var k :| k in running && running[k] == c;
      assert after[k] == c;
    }
  }

  /** The channels of the watches whose name is no longer listed. */
  ghost function Ended(running: map<string, nat>, among: set<string>, names: seq<string>): set<nat> {
    set name | name in running && name in among && name !in names :: running[name]
  }

  /** The listed names that are not known yet, each where it first appears. */
  function NewNames(known: set<string>, names: seq<string>): seq<string> {
    if names == [] then []
    else
      var init, name := names[..|names| - 1], names[|names| - 1];
      NewNames(known, init) + if name in known || name in init then [] else [name]
  }

  lemma {:induction false} NewNamesAre(known: set<string>, names: seq<string>)
    ensures forall name :: name in NewNames(known, names) <==> name in names && name !in known
    ensures forall i, j | 0 <= i < j < |NewNames(known, names)| ::
              NewNames(known, names)[i] != NewNames(known, names)[j]
  {
    if names != [] {
      var init, name := names[..|names| - 1], names[|names| - 1];
      assert names == init + [name];
      NewNamesAre(known, init);
    }
  }

  /** The watches that were there are as they were, and some listed names have got one. */
  ghost predicate Extends(was: map<string, nat>, running: map<string, nat>, names: seq<string>) {
    && (forall name :: name in running <==> name in was || name in names)
    && (forall name | name in was :: running[name] == was[name])
  }

  lemma ExtendsNone(running: map<string, nat>)
    ensures Extends(running, running, [])
  {}

  lemma ExtendsMore(was: map<string, nat>, running: map<string, nat>, names: seq<string>, name: string, channel: nat)
    requires Extends(was, running, names)
    ensures name in running <==> name in was.Keys || name in names
    ensures Extends(was, if name in running then running else running[name := channel], names + [name])
  {}

  class Watches {
    var running: map<string, nat>
    var made: nat
    var closed: set<nat>

    ghost predicate Valid()
      reads this
    {
      Sound(running, made, closed)
    }

    constructor ()
      ensures Valid() && running == map[] && closed == {}
    {
      running, made, closed := map[], 0, {};
    }

    /** Starts the watch of a name that has none. */
    method Start(name: string)
      requires Valid() && name !in running
      modifies `running, `made
      ensures Valid() && running == old(running)[name := old(made)] && made == old(made) + 1
    {
      StartSound(running, made, closed, name);
      hide Sound;
      running := running[name := made];
      made := made + 1;
    }

    /** Watches start for the listed names that have none, each name once. */
    method StartMissing(names: seq<string>) returns (added: seq<string>)
      requires Valid()
      modifies `running, `made
      ensures Valid() && added == NewNames(old(running).Keys, names) && Extends(old(running), running, names)
    {
      hide Sound;
      hide Extends;
      added := [];
      ExtendsNone(running);
      assert names[..0] == [];
      for k := 0 to |names|
        invariant Valid() && added == NewNames(old(running).Keys, names[..k])
        invariant Extends(old(running), running, names[..k])
      {
        var name := names[k];
        assert names[..k + 1][..k] == names[..k] && names[..k + 1] == names[..k] + [name];
        ExtendsMore(old(running), running, names[..k], name, made);
        if name in running {
          continue;
        }
        Start(name);
        added := added + [name];
      }
      assert names[..|names|] == names;
    }

    /** Watches whose name is not listed stop. */
    method StopOthers(names: seq<string>)
      requires Valid()
      modifies `running, `closed
      ensures Valid()
      ensures running == old(running) - Unlisted(old(running).Keys, names)
      ensures closed == old(closed) + Ended(old(running), old(running).Keys, names)
    {
      hide Sound;
      hide Ended;
      hide Unlisted;
      hide StoppedSoFar;
      var todo := running.Keys;
      StopStart(running, names, closed);
      while todo != {}
        invariant Valid() && StoppedSoFar(old(running), todo, names, running, old(closed), closed)
        decreases |todo|
      {
        var name :| name in todo;
        StopStep(old(running), todo, name, names, running, old(closed), closed);
        if name !in names {
          StopSound(running, made, closed, name);
          closed := closed + {running[name]};
          running := running - {name};
        }
        todo := todo - {name};
      }
      StopDone(old(running), names, running, old(closed), closed);
    }

    /** Keeps the watches in step with a list: afterwards exactly the listed names are watched,
        those that stayed by the same watch, and exactly the channels of the others are closed,
        none of them for the second time. The names started are returned, each once. */
    method Sync(names: seq<string>) returns (added: seq<string>)
      requires Valid()
      modifies this
      ensures Valid()
      ensures running.Keys == set name | name in names
      ensures forall name | name in running && name in old(running) :: running[name] == old(running)[name]
      ensures closed == old(closed) + Ended(old(running), old(running).Keys, names)
      ensures Ended(old(running), old(running).Keys, names) !! old(closed)
      ensures added == NewNames(old(running).Keys, names)
      ensures forall name :: name in added <==> name in names && name !in old(running)
      ensures forall i, j | 0 <= i < j < |added| :: added[i] != added[j]
    {
      added := StartMissing(names);
      NewNamesAre(old(running).Keys, names);
      EndedSame(old(running), running, names);
      UnlistedGone(running, names);
      StopOthers(names);
    }
  }

  function Unlisted(among: set<string>, names: seq<string>): set<string> {
    set name | name in among && name !in names
  }

  ghost predicate StoppedSoFar(was: map<string, nat>, todo: set<string>, names: seq<string>,
                               running: map<string, nat>, before: set<nat>, closed: set<nat>) {
    && todo <= was.Keys
    && running == was - Unlisted(was.Keys - todo, names)
    && closed == before + Ended(was, was.Keys - todo, names)
  }

  lemma StopStart(running: map<string, nat>, names: seq<string>, closed: set<nat>)
    ensures StoppedSoFar(running, running.Keys, names, running, closed, closed)
  {
    assert running.Keys - running.Keys == {};
  }

  lemma StopStep(was: map<string, nat>, todo: set<string>, name: string, names: seq<string>,
                 running: map<string, nat>, before: set<nat>, closed: set<nat>)
    requires StoppedSoFar(was, todo, names, running, before, closed) && name in todo
    ensures name in running
    ensures StoppedSoFar(was, todo - {name}, names, if name in names then running else running - {name}, before,
                                            if name in names then closed else closed + {running[name]})
  {
    hide Ended;
    hide Unlisted;
    var done := was.Keys - todo;
    EndedNext(was, done, name, names);
    assert was.Keys - (todo - {name}) == done + {name};
    assert running[name] == was[name];
  }

  lemma StopDone(was: map<string, nat>, names: seq<string>, running: map<string, nat>, before: set<nat>,
                 closed: set<nat>)
    requires StoppedSoFar(was, {}, names, running, before, closed)
    ensures running == was - Unlisted(was.Keys, names) && closed == before + Ended(was, was.Keys, names)
  {
    hide Ended;
    hide Unlisted;
    assert was.Keys - {} == was.Keys;
  }

  lemma EndedNext(running: map<string, nat>, done: set<string>, name: string, names: seq<string>)
    requires name in running && name !in done
    ensures Ended(running, done + {name}, names)
            == Ended(running, done, names) + if name in names then {} else {running[name]}
    ensures var before, after := running - Unlisted(done, names), running - Unlisted(done + {name}, names);
            name in before && after == if name in names then before else before - {name}
  {
    assert Unlisted(done + {name}, names) == Unlisted(done, names) + if name in names then {} else {name};
  }

  lemma UnlistedGone(running: map<string, nat>, names: seq<string>)
    ensures (running - Unlisted(running.Keys, names)).Keys == set name | name in running.Keys && name in names
  {}

  lemma EndedSame(was: map<string, nat>, running: map<string, nat>, names: seq<string>)
    requires Extends(was, running, names)
    ensures Ended(running, running.Keys, names) == Ended(was, was.Keys, names)
  {}
}
