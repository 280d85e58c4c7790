/** What the program reads from a Consul catalog (consul/types.go), and how it sums up health
    (watch/compare.go). */
module Catalog {
  import opened Wrappers
  import opened Timeline
  import opened Counting

  const NODE_MAINTENANCE := "_node_maintenance"
  const SERVICE_MAINTENANCE_PREFIX := "_service_maintenance:"

  datatype Check = Check(id: string, name: string, status: string, output: string, serviceID: string, kind: string)

  datatype Node = Node(name: string, address: string, meta: map<string, string>)

  datatype Service = Service(id: string, name: string, address: string, port: int, tags: seq<string>,
                             meta: map<string, string>)

  /** One entry of a service snapshot; the node or the service may be absent. */
  datatype Registration = Registration(node: Option<Node>, service: Option<Service>, checks: seq<Check>)

  function StatusFromConsul(s: string): int {
    if s == "passing" then STATUS_PASSING
    else if s == "warning" then STATUS_WARNING
    else if s == "critical" then STATUS_CRITICAL
    else if s == "maintenance" then STATUS_MAINTENANCE
    else STATUS_UNKNOWN
  }

  /** A status that Consul names is printed under that name, any other as unknown. */
  lemma ConsulNamesKept(s: string)
    ensures StatusName(StatusFromConsul(s)) ==
            if s in {"passing", "warning", "critical", "maintenance"} then s else "unknown"
  {
    TableNames();
  }

  predicate MarksMaintenance(c: Check) {
    c.id == NODE_MAINTENANCE || SERVICE_MAINTENANCE_PREFIX <= c.id
  }

  /** The status one check argues for. */
  function Vote(c: Check): int {
    if MarksMaintenance(c) then STATUS_MAINTENANCE
    else if c.status == "maintenance" then STATUS_UNKNOWN
    else StatusFromConsul(c.status)
  }

  /** The order of severity that decides between votes; unrecognised statuses come last. */
  function Rank(status: int): nat {
    if status == STATUS_MAINTENANCE then 4
    else if status == STATUS_CRITICAL then 3
    else if status == STATUS_WARNING then 2
    else if status == STATUS_PASSING then 1
    else 0
  }

  function Worse(a: int, b: int): int {
    if Rank(b) > Rank(a) then b else a
  }

  /** The worst vote. */
  function Worst(checks: seq<Check>): int {
    if checks == [] then STATUS_UNKNOWN else Worse(Worst(checks[..|checks| - 1]), Vote(checks[|checks| - 1]))
  }

  /** The four flags of the loop are enough to know the worst vote. */
  method Aggregate(checks: seq<Check>) returns (status: int)
    ensures status == Worst(checks)
  {
    var passing, warning, critical, maintenance := false, false, false, false;
    for i := 0 to |checks|
      invariant Worst(checks[..i]) ==
                if maintenance then STATUS_MAINTENANCE
                else if critical then STATUS_CRITICAL
                else if warning then STATUS_WARNING
                else if passing then STATUS_PASSING
                else STATUS_UNKNOWN
    {
      assert checks[..i + 1][..i] == checks[..i];
      var c := checks[i];
      if MarksMaintenance(c) {
        maintenance := true;
      } else if c.status == "passing" {
        passing := true;
      } else if c.status == "warning" {
        warning := true;
      } else if c.status == "critical" {
        critical := true;
      }
    }
    assert checks[..|checks|] == checks;
    status := if maintenance then STATUS_MAINTENANCE
              else if critical then STATUS_CRITICAL
              else if warning then STATUS_WARNING
              else if passing then STATUS_PASSING
              else STATUS_UNKNOWN;
  }

  /** The aggregate is the vote of some check that no other outranks, so the order of the checks
      does not matter; with checks it never says that something is missing. */
  lemma {:induction false} WorstVote(checks: seq<Check>) returns (c: Check)
    requires checks != []
    ensures c in checks && Worst(checks) == Vote(c)
    ensures forall d | d in checks :: Rank(Vote(d)) <= Rank(Vote(c))
    ensures Worst(checks) != STATUS_MISSING
  {
    var init, last := checks[..|checks| - 1], checks[|checks| - 1];
    assert checks == init + [last];
    c := last;
    if init != [] {
      var before := WorstVote(init);
      if Rank(Vote(last)) <= Rank(Vote(before)) {
        c := before;
      }
    }
  }

  /** A check of node or service maintenance. */
  ghost predicate InMaintenance(checks: seq<Check>) {
    exists c | c in checks :: c.id == "_node_maintenance" || "_service_maintenance:" <= c.id
  }

  /** A check outside maintenance has a status. */
  ghost predicate Says(checks: seq<Check>, status: string) {
    exists c | c in checks :: !MarksMaintenance(c) && c.status == status
  }

  /** Maintenance wins, then critical, warning and passing; when no check says any of these, nothing
      is known. */
  lemma {:induction false} Precedence(checks: seq<Check>)
    ensures Worst(checks) == STATUS_MAINTENANCE <==> InMaintenance(checks)
    ensures Worst(checks) == STATUS_CRITICAL <==> !InMaintenance(checks) && Says(checks, "critical")
    ensures Worst(checks) == STATUS_WARNING <==>
              !InMaintenance(checks) && !Says(checks, "critical") && Says(checks, "warning")
    ensures Worst(checks) == STATUS_PASSING <==>
              && !InMaintenance(checks) && !Says(checks, "critical") && !Says(checks, "warning")
              && Says(checks, "passing")
    ensures Worst(checks) in {STATUS_MAINTENANCE, STATUS_CRITICAL, STATUS_WARNING, STATUS_PASSING, STATUS_UNKNOWN}
  {
    if checks != [] {
      var init, last := checks[..|checks| - 1], checks[|checks| - 1];
      Precedence(init);
      MaintenanceNext(init, last);
      SaysNext(init, last, "critical");
      SaysNext(init, last, "warning");
      SaysNext(init, last, "passing");
      assert checks == init + [last];
      hide InMaintenance;
      hide Says;
    }
  }

  lemma MaintenanceNext(init: seq<Check>, last: Check)
    ensures InMaintenance(init + [last]) <==> InMaintenance(init) || MarksMaintenance(last)
  {
    assert last in init + [last];
  }

  lemma SaysNext(init: seq<Check>, last: Check, status: string)
    ensures Says(init + [last], status) <==> Says(init, status) || (!MarksMaintenance(last) && last.status == status)
  {
    assert last in init + [last];
  }

  /** Without a check there is nothing against an instance. */
  function InstanceStatus(checks: seq<Check>): int {
    if checks == [] then STATUS_PASSING else Worst(checks)
  }

  /** A node always has a check of its own while it is there. */
  function NodeStatus(checks: seq<Check>): int {
    if checks == [] then STATUS_MISSING else Worst(checks)
  }

  /** Of the two summaries only that of a node can be missing, and only without checks. */
  lemma MissingMeansNoChecks(checks: seq<Check>)
    ensures InstanceStatus(checks) != STATUS_MISSING
    ensures NodeStatus(checks) == STATUS_MISSING <==> checks == []
  {
    if checks != [] {
      var c := WorstVote(checks);
    }
  }

  // ---- snapshots -------------------------------------------------------------

  type Key = (string, string)

  datatype Instance = Instance(node: Node, service: Service, checks: seq<Check>)
  {
    function Key(): Key { (node.name, service.id) }
    function Status(): int { InstanceStatus(checks) }
  }

  predicate Complete(r: Registration) {
    r.node.Some? && r.service.Some?
  }

  function InstanceOf(r: Registration): Instance
    requires Complete(r)
  {
    Instance(r.node.value, r.service.value, r.checks)
  }

  /** Instances by key; incomplete entries are skipped and a later entry replaces an earlier one. */
  function Index(s: seq<Registration>): (m: map<Key, Instance>)
    ensures forall k | k in m :: m[k].Key() == k
  {
    if s == [] then map[]
    else
      var before := Index(s[..|s| - 1]);
      var r := s[|s| - 1];
      if Complete(r) then before[InstanceOf(r).Key() := InstanceOf(r)] else before
  }

  /** The number of healthy entries; each of several entries of one instance counts. */
  function Healthy(s: seq<Registration>): nat {
    if s == [] then 0
    else
      var r := s[|s| - 1];
      Healthy(s[..|s| - 1]) + if Complete(r) && InstanceOf(r).Status() == STATUS_PASSING then 1 else 0
  }

  /** The last check of each identifier. */
  function CheckIndex(checks: seq<Check>): (m: map<string, Check>)
    ensures forall k | k in m :: m[k].id == k
  {
    if checks == [] then map[]
    else
      var c := checks[|checks| - 1];
      CheckIndex(checks[..|checks| - 1])[c.id := c]
  }

  /** The checks attached to the instance itself, or those of its node. */
  function Attached(checks: seq<Check>, toService: bool): seq<Check> {
    if checks == [] then []
    else
      var c := checks[|checks| - 1];
      Attached(checks[..|checks| - 1], toService) + if (c.serviceID != "") == toService then [c] else []
  }

  /** The entry at a position is the last complete one for a key. */
  ghost predicate LastOfKey(s: seq<Registration>, i: int, key: Key) {
    && 0 <= i < |s| && Complete(s[i]) && (s[i].node.value.name, s[i].service.value.id) == key
    && forall j | i < j < |s| && Complete(s[j]) :: (s[j].node.value.name, s[j].service.value.id) != key
  }

  /** The index holds the last complete entry of every key, and no other. */
  lemma {:induction false} IndexIsLast(s: seq<Registration>, key: Key)
    ensures key in Index(s) ==> exists i :: LastOfKey(s, i, key)
    ensures forall i | LastOfKey(s, i, key) ::
              key in Index(s) && Index(s)[key] == Instance(s[i].node.value, s[i].service.value, s[i].checks)
  {
    if s != [] {
      var init, last := s[..|s| - 1], |s| - 1;
      IndexIsLast(init, key);
      if Complete(s[last]) && InstanceOf(s[last]).Key() == key {
        assert LastOfKey(s, last, key);
      } else {
        forall i: int
          ensures LastOfKey(s, i, key) <==> LastOfKey(init, i, key)
        {}
      }
    }
  }

  /** The check at a position is the last one with an identifier among those that are attached to
      the instance, or to the node. */
  ghost predicate LastCheck(checks: seq<Check>, toService: bool, i: int, id: string) {
    && 0 <= i < |checks| && (checks[i].serviceID != "") == toService && checks[i].id == id
    && forall j | i < j < |checks| && (checks[j].serviceID != "") == toService :: checks[j].id != id
  }

  lemma LastCheckEarlier(checks: seq<Check>, toService: bool, i: int, id: string)
    requires checks != [] && !((checks[|checks| - 1].serviceID != "") == toService && checks[|checks| - 1].id == id)
    ensures LastCheck(checks, toService, i, id) <==> LastCheck(checks[..|checks| - 1], toService, i, id)
  {}

  lemma AttachedNext(checks: seq<Check>, toService: bool)
    requires checks != []
    ensures var init, last := checks[..|checks| - 1], checks[|checks| - 1];
            CheckIndex(Attached(checks, toService)) ==
            if (last.serviceID != "") == toService then CheckIndex(Attached(init, toService))[last.id := last]
            else CheckIndex(Attached(init, toService))
  {
    var before := Attached(checks[..|checks| - 1], toService);
    if (checks[|checks| - 1].serviceID != "") == toService {
      assert Attached(checks, toService)[..|before|] == before;
    } else {
      assert before + [] == before;
    }
  }

  /** So does the index of the selected checks. */
  lemma {:induction false} ChecksAreLast(checks: seq<Check>, toService: bool, id: string)
    ensures id in CheckIndex(Attached(checks, toService)) ==> exists i :: LastCheck(checks, toService, i, id)
    ensures forall i | LastCheck(checks, toService, i, id) ::
              id in CheckIndex(Attached(checks, toService)) && CheckIndex(Attached(checks, toService))[id] == checks[i]
  {
    if checks != [] {
      var init, last := checks[..|checks| - 1], |checks| - 1;
      ChecksAreLast(init, toService, id);
      AttachedNext(checks, toService);
      hide CheckIndex;
      hide Attached;
      if (checks[last].serviceID != "") == toService && checks[last].id == id {
        assert LastCheck(checks, toService, last, id);
      } else {
        hide LastCheck;
        forall i: int
          ensures LastCheck(checks, toService, i, id) <==> LastCheck(init, toService, i, id)
        {
          LastCheckEarlier(checks, toService, i, id);
        }
      }
    }
  }

  lemma {:induction false} AttachedAre(checks: seq<Check>, toService: bool)
    ensures forall c :: c in Attached(checks, toService) <==> c in checks && (c.serviceID != "") == toService
  {
    if checks != [] {
      var init, last := checks[..|checks| - 1], checks[|checks| - 1];
      AttachedAre(init, toService);
      assert checks == init + [last];
    }
  }

  /** The entries of healthy instances: complete, and without checks or with nothing but passing
      ones (and ones of unknown status). */
  function HealthyEntry(r: Registration): bool {
    && r.node.Some? && r.service.Some?
    && (r.checks == [] || Worst(r.checks) == STATUS_PASSING)
  }

  const HEALTHY := (r: Registration) => HealthyEntry(r)

  /** Every healthy entry counts, also when there are several of one instance. */
  lemma {:induction false} HealthyCounts(s: seq<Registration>)
    ensures Healthy(s) == Count(s, HEALTHY)
  {
    if s != [] {
      HealthyCounts(s[..|s| - 1]);
    }
  }

  method IndexInstances(s: seq<Registration>) returns (index: map<Key, Instance>, healthy: nat)
    ensures index == Index(s) && healthy == Healthy(s)
  {
    index, healthy := map[], 0;
    for i := 0 to |s|
      invariant index == Index(s[..i]) && healthy == Healthy(s[..i])
    {
      assert s[..i + 1][..i] == s[..i];
      if !Complete(s[i]) {
        continue;
      }
      var instance := InstanceOf(s[i]);
      var status := STATUS_PASSING;
      if instance.checks != [] {
        status := Aggregate(instance.checks);
      }
      if status == STATUS_PASSING {
        healthy := healthy + 1;
      }
      index := index[instance.Key() := instance];
    }
    assert s[..|s|] == s;
  }

  method SelectChecks(checks: seq<Check>, toService: bool) returns (out: seq<Check>)
    ensures out == Attached(checks, toService)
  {
    out := [];
    for i := 0 to |checks|
      invariant out == Attached(checks[..i], toService)
    {
      assert checks[..i + 1][..i] == checks[..i];
      if (checks[i].serviceID != "") == toService {
        out := out + [checks[i]];
      }
    }
    assert checks[..|checks|] == checks;
  }

  method IndexChecks(checks: seq<Check>) returns (index: map<string, Check>)
    ensures index == CheckIndex(checks)
  {
    index := map[];
    for i := 0 to |checks|
      invariant index == CheckIndex(checks[..i])
    {
      assert checks[..i + 1][..i] == checks[..i];
      index := index[checks[i].id := checks[i]];
    }
    assert checks[..|checks|] == checks;
  }

  /** The distinct complete entries, when there are no two for one instance. */
  ghost predicate UniqueKeys(s: seq<Registration>) {
    forall i, j | 0 <= i < j < |s| && Complete(s[i]) && Complete(s[j]) ::
      InstanceOf(s[i]).Key() != InstanceOf(s[j]).Key()
  }

  ghost predicate AllComplete(s: seq<Registration>) {
    forall r | r in s :: Complete(r)
  }
}
