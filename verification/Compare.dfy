/** What the watcher reports about two consecutive states (watch/compare.go): the exact set of
    events and announcements, and what replaying them gives. */
module Compare {
  import opened Wrappers
  import opened Timeline
  import opened Catalog
  import opened Diffs

  /** How long an announcement lasts. */
  const INSTANCE_REFRESH: int := 24 * HOUR

  /** Which service meta keys give the team, the application and the version. */
  datatype Derive = Derive(team: seq<string>, app: seq<string>, version: seq<string>)

  function FirstSet(meta: map<string, string>, keys: seq<string>): string {
    if keys == [] then ""
    else if keys[0] in meta && meta[keys[0]] != "" then meta[keys[0]]
    else FirstSet(meta, keys[1..])
  }

  /** The first of the keys that is set to something. */
  ghost predicate FirstNamed(meta: map<string, string>, keys: seq<string>, i: int) {
    && 0 <= i < |keys| && keys[i] in meta && meta[keys[i]] != ""
    && forall j | 0 <= j < i :: keys[j] !in meta || meta[keys[j]] == ""
  }

  lemma {:induction false} FirstSetIs(meta: map<string, string>, keys: seq<string>)
    ensures FirstSet(meta, keys) == "" ==> forall i :: !FirstNamed(meta, keys, i)
    ensures FirstSet(meta, keys) != "" ==> exists i :: FirstNamed(meta, keys, i)
    ensures forall i | FirstNamed(meta, keys, i) :: FirstSet(meta, keys) == meta[keys[i]]
  {
    if keys != [] {
      FirstSetIs(meta, keys[1..]);
      if keys[0] in meta && meta[keys[0]] != "" {
        assert FirstNamed(meta, keys, 0);
      } else {
        forall i: int
          ensures FirstNamed(meta, keys, i) <==> FirstNamed(meta, keys[1..], i - 1)
        {
          if FirstNamed(meta, keys[1..], i - 1) {
            assert keys[1..][i - 1] == keys[i] && forall j | 0 < j < i :: keys[j] == keys[1..][j - 1];
          }
        }
        if FirstSet(meta, keys) != "" {
          var i :| FirstNamed(meta, keys[1..], i);
          assert FirstNamed(meta, keys, i + 1);
        }
      }
    }
  }

  /** What of a registration goes into its fingerprint; tags are sorted first. */
  datatype Profile = Profile(
    service: string, address: string, port: int, tags: multiset<string>,
    meta: map<string, string>, nodeMeta: map<string, string>)

  function ProfileOf(i: Instance): Profile {
    Profile(i.service.name, i.service.address, i.service.port, multiset(i.service.tags), i.service.meta, i.node.meta)
  }

  /** The hash is any function of the profile; nothing says that it tells profiles apart. */
  datatype Config = Config(datacenter: string, derive: Derive, hash: Profile -> int)

  // ---- events ----------------------------------------------------------------

  /** One comparison of two snapshots of a service. */
  datatype Step = Step(at: int, index: int, was: seq<Registration>, now: seq<Registration>)

  function Base(cfg: Config, s: Step, i: Instance): Event {
    var meta := i.service.meta;
    Event(0, s.at, cfg.datacenter, KIND_UNKNOWN, s.index,
          i.node.name, i.node.address, STATUS_UNKNOWN, STATUS_UNKNOWN,
          i.service.name, i.service.id,
          FirstSet(meta, cfg.derive.team), FirstSet(meta, cfg.derive.app), FirstSet(meta, cfg.derive.version),
          i.service.tags,
          STATUS_UNKNOWN, STATUS_UNKNOWN, Healthy(s.was), Healthy(s.now), |s.now|,
          "", "", "", STATUS_UNKNOWN, STATUS_UNKNOWN, "")
  }

  /** What an event is about: an instance, or one check of an instance. */
  datatype Cell = Whole(key: Key) | CheckOf(key: Key, id: string)

  function CellOf(e: Event): Cell {
    var key := (e.nodeName, e.serviceID);
    if e.kind == KIND_INSTANCE then Whole(key) else CheckOf(key, e.checkID)
  }

  function CheckEvent(base: Event, c: Check, was: int, now: int): Event {
    base.(checkID := c.id, checkName := c.name, checkType := c.kind, checkOutput := c.output,
          oldCheckStatus := was, newCheckStatus := now)
  }

  /** A check appeared, disappeared (its output is withheld), or changed its raw status. */
  function CheckChange(base: Event, was: map<string, Check>, now: map<string, Check>, id: string): Option<Event> {
    if id in now && id !in was then
      Some(CheckEvent(base, now[id], STATUS_MISSING, StatusFromConsul(now[id].status)))
    else if id in now && was[id].status != now[id].status then
      Some(CheckEvent(base, now[id], StatusFromConsul(was[id].status), StatusFromConsul(now[id].status)))
    else if id in was && id !in now then
      Some(CheckEvent(base, was[id].(output := ""), StatusFromConsul(was[id].status), STATUS_MISSING))
    else None
  }

  function CheckChanges(base: Event, was: map<string, Check>, now: map<string, Check>): Change<string, Event> {
    (id: string) => CheckChange(base, was, now, id)
  }

  const CHECK_ID := (e: Event) => e.checkID

  /** An instance appeared or vanished. */
  function InstanceChange(cfg: Config, s: Step, key: Key): Option<Event> {
    var was, now := Index(s.was), Index(s.now);
    if key in now && key !in was then
      Some(Base(cfg, s, now[key]).(kind := KIND_INSTANCE,
                                   oldServiceStatus := STATUS_MISSING, newServiceStatus := now[key].Status()))
    else if key in was && key !in now then
      Some(Base(cfg, s, was[key]).(kind := KIND_INSTANCE,
                                   oldServiceStatus := was[key].Status(), newServiceStatus := STATUS_MISSING))
    else None
  }

  function CheckBase(cfg: Config, s: Step, was: Instance, now: Instance): Event {
    Base(cfg, s, now).(kind := KIND_CHECK, oldServiceStatus := was.Status(), newServiceStatus := now.Status())
  }

  /** The checks that a service watch reports about, by identifier. */
  function ServiceChecks(i: Instance): map<string, Check> {
    CheckIndex(Attached(i.checks, true))
  }

  function ServiceChange(cfg: Config, s: Step, cell: Cell): Option<Event> {
    match cell
    case Whole(key) => InstanceChange(cfg, s, key)
    case CheckOf(key, id) =>
      var was, now := Index(s.was), Index(s.now);
      if key in was && key in now then
        CheckChange(CheckBase(cfg, s, was[key], now[key]), ServiceChecks(was[key]), ServiceChecks(now[key]), id)
      else None
  }

  function ServiceChanges(cfg: Config, s: Step): Change<Cell, Event> {
    (cell: Cell) => ServiceChange(cfg, s, cell)
  }

  const CELL := (e: Event) => CellOf(e)

  lemma CheckChangesFiled(base: Event, was: map<string, Check>, now: map<string, Check>)
    requires forall k | k in was :: was[k].id == k
    requires forall k | k in now :: now[k].id == k
    ensures Filed(CheckChanges(base, was, now), CHECK_ID)
  {}

  lemma ServiceChangeFiled(cfg: Config, s: Step, cell: Cell)
    requires ServiceChange(cfg, s, cell).Some?
    ensures CellOf(ServiceChange(cfg, s, cell).value) == cell
  {
    hide Index;
    hide CheckIndex;
    hide Attached;
    hide Healthy;
    hide FirstSet;
    hide Instance.Status;
  }

  lemma ServiceChangesFiled(cfg: Config, s: Step)
    ensures Filed(ServiceChanges(cfg, s), CELL)
  {
    hide ServiceChange;
    hide CellOf;
    forall cell | ServiceChanges(cfg, s)(cell).Some?
      ensures CELL(ServiceChanges(cfg, s)(cell).value) == cell
    {
      ServiceChangeFiled(cfg, s, cell);
    }
  }

  ghost function CellsOf(keys: set<Key>): iset<Cell> {
    iset c: Cell | c.key in keys
  }

  lemma CellsNext(all: set<Key>, todo: set<Key>, key: Key)
    requires key in todo && todo <= all
    ensures CellsOf(all - todo) !! CellsOf({key})
            && CellsOf(all - (todo - {key})) == CellsOf(all - todo) + CellsOf({key})
  {}

  /** The check reports of a surviving instance are its reports of the service comparison. */
  lemma SurvivorReports(cfg: Config, s: Step, key: Key, out: seq<Event>)
    requires var was, now := Index(s.was), Index(s.now);
             && key in was && key in now
             && Reports(out,
                        CheckChanges(CheckBase(cfg, s, was[key], now[key]),
                                     ServiceChecks(was[key]), ServiceChecks(now[key])),
                        CHECK_ID, Every())
    ensures Reports(out, ServiceChanges(cfg, s), CELL, CellsOf({key}))
  {
    hide Index;
    hide CheckIndex;
    hide Attached;
    hide Healthy;
    hide FirstSet;
    hide Instance.Status;
    var was, now := Index(s.was), Index(s.now);
    var base := CheckBase(cfg, s, was[key], now[key]);
    var change := CheckChanges(base, ServiceChecks(was[key]), ServiceChecks(now[key]));
    forall e | e in out
      ensures CellOf(e) == CheckOf(key, e.checkID) && ServiceChange(cfg, s, CellOf(e)) == Some(e)
    {
      assert change(CHECK_ID(e)) == Some(e);
    }
    forall cell | cell in CellsOf({key}) && ServiceChanges(cfg, s)(cell).Some?
      ensures ServiceChanges(cfg, s)(cell).value in out
    {
      assert cell.CheckOf?;
      assert cell.id in Every<string>();
      assert change(cell.id).value in out;
    }
    forall i, j | 0 <= i < j < |out|
      ensures CELL(out[i]) != CELL(out[j])
    {
      assert CHECK_ID(out[i]) != CHECK_ID(out[j]);
    }
  }

  /** An instance that appeared or vanished is one report, not one per check. */
  lemma InstanceReports(cfg: Config, s: Step, key: Key)
    requires key in Index(s.was) <==> key !in Index(s.now)
    ensures Reports(ToList(InstanceChange(cfg, s, key)), ServiceChanges(cfg, s), CELL, CellsOf({key}))
  {
    hide Reports;
    var changes := ServiceChanges(cfg, s);
    ServiceChangesFiled(cfg, s);
    ReportsOne(changes, CELL, Whole(key));
    assert changes(Whole(key)) == InstanceChange(cfg, s, key);
    ReportsMore(ToList(changes(Whole(key))), changes, CELL, iset{Whole(key)}, CellsOf({key}));
  }

  /** Nothing is reported about instances that neither snapshot has. */
  lemma AllReported(cfg: Config, s: Step, current: seq<Event>, gone: seq<Event>)
    requires Reports(current, ServiceChanges(cfg, s), CELL, CellsOf(Index(s.now).Keys))
    requires Reports(gone, ServiceChanges(cfg, s), CELL, CellsOf(Index(s.was).Keys - Index(s.now).Keys))
    ensures Reports(current + gone, ServiceChanges(cfg, s), CELL, Every())
  {
    hide Reports;
    var present, departed := CellsOf(Index(s.now).Keys), CellsOf(Index(s.was).Keys - Index(s.now).Keys);
    ReportsJoin(current, gone, ServiceChanges(cfg, s), CELL, present, departed);
    ReportsMore(current + gone, ServiceChanges(cfg, s), CELL, present + departed, Every());
  }

  // ---- what the events say ---------------------------------------------------

  /** The raw status of a check, if it is there. */
  function RawStatus(checks: map<string, Check>, id: string): Option<string> {
    if id in checks then Some(checks[id].status) else None
  }

  /** A service watch is about the checks attached to the service and not about those of its node; of
      several with one identifier the last counts. */
  lemma ServiceChecksAre(i: Instance, id: string)
    ensures id in ServiceChecks(i) <==> exists j :: LastCheck(i.checks, true, j, id)
    ensures forall j | LastCheck(i.checks, true, j, id) ::
              ServiceChecks(i)[id] == i.checks[j] && i.checks[j].serviceID != ""
  {
    ChecksAreLast(i.checks, true, id);
  }

  /** The status of a check, missing when it is not there. */
  function StatusOf(checks: map<string, Check>, id: string): int {
    if id in checks then StatusFromConsul(checks[id].status) else STATUS_MISSING
  }

  /** The status of an instance, missing when it is not there. */
  function StatusIn(s: seq<Registration>, key: Key): int {
    if key in Index(s) then Index(s)[key].Status() else STATUS_MISSING
  }

  /** The event takes a check from one status to the other, and shows the check as it is, or as it
      was without its output. */
  ghost predicate DescribesCheck(e: Event, was: map<string, Check>, now: map<string, Check>) {
    var id := e.checkID;
    && (id in was || id in now)
    && e.oldCheckStatus == StatusOf(was, id) && e.newCheckStatus == StatusOf(now, id)
    && var c := if id in now then now[id] else was[id];
       e.checkName == c.name && e.checkType == c.kind && e.checkOutput == if id in now then c.output else ""
  }

  /** What an event says beside the check. */
  function WithoutCheck(e: Event): Event {
    e.(checkID := "", checkName := "", checkType := "", checkOutput := "", oldCheckStatus := 0, newCheckStatus := 0)
  }

  /** A check is reported exactly when it appeared, vanished or changed its raw status, and as just
      said; nothing else of the event depends on it. */
  lemma CheckDescribed(base: Event, was: map<string, Check>, now: map<string, Check>, id: string)
    requires forall k | k in was :: was[k].id == k
    requires forall k | k in now :: now[k].id == k
    ensures CheckChange(base, was, now, id).Some? <==> RawStatus(was, id) != RawStatus(now, id)
    ensures CheckChange(base, was, now, id).Some? ==>
              var e := CheckChange(base, was, now, id).value;
              && e.checkID == id && DescribesCheck(e, was, now)
              && WithoutCheck(e) == WithoutCheck(base)
  {}

  /** The event is about an instance, as its registration says. */
  ghost predicate Carries(e: Event, cfg: Config, i: Instance) {
    && e.datacenter == cfg.datacenter && e.nodeName == i.node.name && e.nodeIP == i.node.address
    && e.serviceName == i.service.name && e.serviceID == i.service.id && e.tags == i.service.tags
    && e.team == FirstSet(i.service.meta, cfg.derive.team) && e.app == FirstSet(i.service.meta, cfg.derive.app)
    && e.version == FirstSet(i.service.meta, cfg.derive.version)
  }

  /** The event is of this comparison and carries the instance as it is, or as it was if it is gone;
      it takes the instance from its status in the one snapshot to that in the other; and it is
      about a check exactly when the instance stayed. */
  ghost predicate Describes(e: Event, cfg: Config, s: Step) {
    var was, now := Index(s.was), Index(s.now);
    var key := (e.nodeName, e.serviceID);
    && e.time == s.at && e.consulIndex == s.index
    && e.oldHealthy == Healthy(s.was) && e.newHealthy == Healthy(s.now) && e.totalInstances == |s.now|
    && (key in was || key in now) && Carries(e, cfg, if key in now then now[key] else was[key])
    && e.oldServiceStatus == StatusIn(s.was, key) && e.newServiceStatus == StatusIn(s.now, key)
    && e.kind == (if key in was && key in now then KIND_CHECK else KIND_INSTANCE)
    && (key in was && key in now ==> DescribesCheck(e, ServiceChecks(was[key]), ServiceChecks(now[key])))
  }

  /** What is reported of a comparison: the instances that came or went and the checks of the others
      that changed their raw status, each as just said. */
  lemma ChangeDescribed(cfg: Config, s: Step, cell: Cell)
    ensures var was, now := Index(s.was), Index(s.now);
            ServiceChange(cfg, s, cell).Some? <==>
              match cell
              case Whole(key) => (key in was) != (key in now)
              case CheckOf(key, id) =>
                && key in was && key in now
                && RawStatus(ServiceChecks(was[key]), id) != RawStatus(ServiceChecks(now[key]), id)
    ensures ServiceChange(cfg, s, cell).Some? ==> Describes(ServiceChange(cfg, s, cell).value, cfg, s)
  {
    var was, now := Index(s.was), Index(s.now);
    hide Index;
    hide CheckIndex;
    hide Attached;
    hide Healthy;
    hide FirstSet;
    hide Instance.Status;
    match cell
    case Whole(key) =>
    case CheckOf(key, id) =>
      if key in was && key in now {
        var before, after := ServiceChecks(was[key]), ServiceChecks(now[key]);
        CheckDescribed(CheckBase(cfg, s, was[key], now[key]), before, after, id);
        hide CheckChange;
        hide DescribesCheck;
        hide ServiceChecks;
      }
  }

  // ---- announcements ---------------------------------------------------------

  datatype Mark = Mark(fingerprint: int, announced: int)

  type Marks = map<Key, Mark>

  datatype Announcement = Announcement(
    datacenter: string, nodeName: string, serviceID: string, serviceName: string, nodeIP: string,
    address: string, port: int, team: string, app: string, version: string, tags: seq<string>,
    meta: map<string, string>, nodeMeta: map<string, string>, firstSeen: int, lastSeen: int)

  const ANNOUNCED := (a: Announcement) => (a.nodeName, a.serviceID)

  function Record(cfg: Config, at: int, i: Instance): Announcement {
    var meta := i.service.meta;
    Announcement(cfg.datacenter, i.node.name, i.service.id, i.service.name, i.node.address,
                 i.service.address, i.service.port,
                 FirstSet(meta, cfg.derive.team), FirstSet(meta, cfg.derive.app), FirstSet(meta, cfg.derive.version),
                 i.service.tags, meta, i.node.meta, at, at)
  }

  function Fingerprint(cfg: Config, i: Instance): int {
    cfg.hash(ProfileOf(i))
  }

  /** A hash that tells all profiles apart. */
  ghost predicate TellsApart(hash: Profile -> int) {
    forall p, q :: hash(p) == hash(q) ==> p == q
  }

  /** With such a hash two registrations have one fingerprint exactly when they agree in all of this,
      the order of the tags aside. The address of the node is not among it. */
  lemma FingerprintsAgree(cfg: Config, i: Instance, j: Instance)
    requires TellsApart(cfg.hash)
    ensures Fingerprint(cfg, i) == Fingerprint(cfg, j) <==>
              && i.service.name == j.service.name
              && i.service.address == j.service.address && i.service.port == j.service.port
              && multiset(i.service.tags) == multiset(j.service.tags)
              && i.service.meta == j.service.meta && i.node.meta == j.node.meta
  {}

  /** A record is of an instance at a time. */
  ghost predicate RecordsInstance(a: Announcement, cfg: Config, at: int, i: Instance) {
    && a.datacenter == cfg.datacenter && a.nodeName == i.node.name && a.nodeIP == i.node.address
    && a.serviceID == i.service.id && a.serviceName == i.service.name
    && a.address == i.service.address && a.port == i.service.port && a.tags == i.service.tags
    && a.team == FirstSet(i.service.meta, cfg.derive.team) && a.app == FirstSet(i.service.meta, cfg.derive.app)
    && a.version == FirstSet(i.service.meta, cfg.derive.version)
    && a.meta == i.service.meta && a.nodeMeta == i.node.meta && a.firstSeen == at && a.lastSeen == at
  }

  /** Two records of one instance at one time are the same exactly when the node has one address,
      the tags come in one order, and the registrations have one fingerprint: a changed node address
      is not announced before the refresh. */
  lemma RecordsAgree(cfg: Config, at: int, i: Instance, j: Instance)
    requires TellsApart(cfg.hash) && i.Key() == j.Key()
    ensures RecordsInstance(Record(cfg, at, i), cfg, at, i)
    ensures Record(cfg, at, i) == Record(cfg, at, j) <==>
              && Fingerprint(cfg, i) == Fingerprint(cfg, j)
              && i.node.address == j.node.address && i.service.tags == j.service.tags
  {
    FingerprintsAgree(cfg, i, j);
  }

  /** Whether a record is sent: always if forced, otherwise unless the mark is of the same
      registration and recent. */
  predicate Due(cfg: Config, marks: Marks, at: int, i: Instance, force: bool) {
    || force
    || i.Key() !in marks
    || marks[i.Key()].fingerprint != Fingerprint(cfg, i)
    || at - marks[i.Key()].announced >= INSTANCE_REFRESH
  }

  function Remember(cfg: Config, marks: Marks, at: int, i: Instance, force: bool): Marks {
    if Due(cfg, marks, at, i, force) then marks[i.Key() := Mark(Fingerprint(cfg, i), at)] else marks
  }

  function Sent(cfg: Config, marks: Marks, at: int, i: Instance, force: bool): seq<Announcement> {
    if Due(cfg, marks, at, i, force) then [Record(cfg, at, i)] else []
  }

  /** Announcing a whole snapshot, entry after entry. */
  function RememberAll(cfg: Config, marks: Marks, at: int, s: seq<Registration>, force: bool): Marks {
    if s == [] then marks
    else
      var before := RememberAll(cfg, marks, at, s[..|s| - 1], force);
      var r := s[|s| - 1];
      if Complete(r) then Remember(cfg, before, at, InstanceOf(r), force) else before
  }

  function SentAll(cfg: Config, marks: Marks, at: int, s: seq<Registration>, force: bool): seq<Announcement> {
    if s == [] then []
    else
      var init, r := s[..|s| - 1], s[|s| - 1];
      var before := SentAll(cfg, marks, at, init, force);
      if Complete(r) then before + Sent(cfg, RememberAll(cfg, marks, at, init, force), at, InstanceOf(r), force)
      else before
  }

  /** The announcements of a comparison: an instance that the previous snapshot lacks is forced. */
  function Announces(cfg: Config, s: Step, marks: Marks): Change<Key, Announcement> {
    (key: Key) =>
      var now := Index(s.now);
      if key in now && Due(cfg, marks, s.at, now[key], key !in Index(s.was)) then Some(Record(cfg, s.at, now[key]))
      else None
  }

  lemma AnnouncesFiled(cfg: Config, s: Step, marks: Marks)
    ensures Filed(Announces(cfg, s, marks), ANNOUNCED)
  {
    hide FirstSet;
    hide Due;
    var now := Index(s.now);
    hide Index;
    forall key | Announces(cfg, s, marks)(key).Some?
      ensures ANNOUNCED(Announces(cfg, s, marks)(key).value) == key
    {
      assert now[key].Key() == key;
    }
  }

  /** The mark of a key after a comparison: refreshed when announced, dropped when the instance
      vanished. */
  function MarkAfter(cfg: Config, s: Step, marks: Marks, key: Key): Option<Mark> {
    var was, now := Index(s.was), Index(s.now);
    if key in now then Lookup(Remember(cfg, marks, s.at, now[key], key !in was), key)
    else if key in was then None
    else Lookup(marks, key)
  }

  function MarksAfter(cfg: Config, s: Step, marks: Marks): Marks {
    map key | key in marks.Keys + Index(s.now).Keys && MarkAfter(cfg, s, marks, key).Some? ::
      MarkAfter(cfg, s, marks, key).value
  }

  lemma MarksAre(cfg: Config, s: Step, marks: Marks, after: Marks)
    requires forall key :: Lookup(after, key) == MarkAfter(cfg, s, marks, key)
    ensures after == MarksAfter(cfg, s, marks)
  {
    hide Index;
    hide Due;
    forall key
      ensures key in after <==> key in MarksAfter(cfg, s, marks)
      ensures key in after ==> after[key] == MarksAfter(cfg, s, marks)[key]
    {
      assert Lookup(after, key) == MarkAfter(cfg, s, marks, key);
    }
  }

  // ---- what the reports mean -------------------------------------------------

  /** The status a report leaves behind; a missing one leaves nothing. */
  function ValueOf(e: Event): Option<int> {
    if e.NewStatus() == STATUS_MISSING then None else Some(e.NewStatus())
  }

  const LEFT := (e: Event) => ValueOf(e)

  /** A consumer's picture of a service: which instances exist, and the last known status of
      every check. */
  type Picture = map<Cell, int>

  function Follow(p: Picture, out: seq<Event>): Picture {
    Replay(p, out, CELL, LEFT)
  }

  function CheckStatus(i: Instance, id: string): Option<int> {
    var checks := ServiceChecks(i);
    if id in checks then Some(StatusFromConsul(checks[id].status)) else None
  }

  ghost predicate ShowsInstances(p: Picture, s: seq<Registration>) {
    forall key :: Whole(key) in p <==> key in Index(s)
  }

  /** The picture has the right status of every check of the given instances. */
  ghost predicate ShowsChecks(p: Picture, s: seq<Registration>, keys: set<Key>) {
    forall key, id | key in keys && key in Index(s) :: Lookup(p, CheckOf(key, id)) == CheckStatus(Index(s)[key], id)
  }

  lemma CheckChangeLeaves(base: Event, was: map<string, Check>, now: map<string, Check>, id: string)
    requires base.kind == KIND_CHECK
    ensures var after := if id in now then Some(StatusFromConsul(now[id].status)) else None;
            match CheckChange(base, was, now, id)
            case Some(e) => ValueOf(e) == after
            case None => after == if id in was then Some(StatusFromConsul(was[id].status)) else None
  {}

  /** The status a report starts from; a missing one means that there was nothing. */
  function TakenFrom(e: Event): Option<int> {
    if e.OldStatus() == STATUS_MISSING then None else Some(e.OldStatus())
  }

  lemma NeverMissing(i: Instance, status: string)
    ensures i.Status() != STATUS_MISSING && StatusFromConsul(status) != STATUS_MISSING
  {
    MissingMeansNoChecks(i.checks);
  }

  /** The events start from what the picture of the old snapshot shows: a check event of an instance
      it shows from the status there, an instance event from whether the instance is there. */
  lemma DiffTakes(cfg: Config, s: Step, out: seq<Event>, p: Picture, keys: set<Key>, e: Event)
    requires Reports(out, ServiceChanges(cfg, s), CELL, Every()) && e in out
    requires ShowsInstances(p, s.was)
    requires ShowsChecks(p, s.was, keys) && keys <= Index(s.was).Keys
    ensures e.kind == KIND_CHECK && (e.nodeName, e.serviceID) in keys ==> TakenFrom(e) == Lookup(p, CellOf(e))
    ensures e.kind == KIND_INSTANCE ==> (TakenFrom(e).Some? <==> CellOf(e) in p)
    ensures e.kind == KIND_CHECK || e.kind == KIND_INSTANCE
  {
    var was := Index(s.was);
    var key := (e.nodeName, e.serviceID);
    assert ServiceChanges(cfg, s)(CELL(e)) == Some(e);
    ChangeDescribed(cfg, s, CellOf(e));
    hide Index;
    hide CheckIndex;
    hide Attached;
    hide Healthy;
    hide FirstSet;
    hide Reports;
    hide CheckChange;
    hide ServiceChange;
    hide Carries;
    hide Instance.Status;
    if key in was {
      NeverMissing(was[key], "");
      if e.kind == KIND_CHECK && key in keys {
        var checks := ServiceChecks(was[key]);
        assert Lookup(p, CellOf(e)) == CheckStatus(was[key], e.checkID);
        if e.checkID in checks {
          NeverMissing(was[key], checks[e.checkID].status);
        }
      }
    }
  }

  /** Replaying the events of one comparison, in whatever order they were sent, gives exactly the
      instances of the new snapshot, and the check statuses of every instance in both. */
  lemma DiffReplays(cfg: Config, s: Step, out: seq<Event>, p: Picture, keys: set<Key>)
    requires Reports(out, ServiceChanges(cfg, s), CELL, Every())
    requires ShowsInstances(p, s.was)
    requires ShowsChecks(p, s.was, keys) && keys <= Index(s.was).Keys
    ensures ShowsInstances(Follow(p, out), s.now)
    ensures ShowsChecks(Follow(p, out), s.now, keys)
  {
    var was, now := Index(s.was), Index(s.now);
    hide Index;
    hide CheckIndex;
    hide Attached;
    hide Healthy;
    hide FirstSet;
    hide Reports;
    hide Replay;
    hide CheckChange;
    var changes := ServiceChanges(cfg, s);
    ServiceChangesFiled(cfg, s);
    forall key
      ensures Whole(key) in Follow(p, out) <==> key in now
    {
      ReplayReports(p, out, changes, CELL, LEFT, Whole(key));
      if key in now {
        MissingMeansNoChecks(now[key].checks);
      }
      assert changes(Whole(key)) == InstanceChange(cfg, s, key);
    }
    forall key, id | key in keys && key in now
      ensures Lookup(Follow(p, out), CheckOf(key, id)) == CheckStatus(now[key], id)
    {
      var cell := CheckOf(key, id);
      ReplayReports(p, out, changes, CELL, LEFT, cell);
      assert changes(cell) == ServiceChange(cfg, s, cell);
      assert Lookup(p, cell) == CheckStatus(was[key], id);
      CheckChangeLeaves(CheckBase(cfg, s, was[key], now[key]), ServiceChecks(was[key]), ServiceChecks(now[key]), id);
    }
  }
}
