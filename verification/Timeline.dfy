/** The event model (timeline/event.go).

    A time is a number of nanoseconds since the zero time of Go (the first
    instant of year 1), so the zero time is 0 and truncation to a unit is a remainder. */
module Timeline {
  import opened Wrappers

  const MILLISECOND: int := 1_000_000
  const SECOND: int := 1000 * MILLISECOND
  const MINUTE: int := 60 * SECOND
  const HOUR: int := 60 * MINUTE
  const DAY: int := 24 * HOUR
  const UNIX_EPOCH: int := 62_135_596_800 * SECOND

  const STATUS_UNKNOWN := 0
  const STATUS_MISSING := 1
  const STATUS_CRITICAL := 2
  const STATUS_WARNING := 3
  const STATUS_PASSING := 4
  const STATUS_MAINTENANCE := 5

  const KIND_UNKNOWN := 0
  const KIND_CHECK := 1
  const KIND_INSTANCE := 2
  const KIND_NODE := 3

  const STATUS_NAMES: seq<string> := ["unknown", "missing", "critical", "warning", "passing", "maintenance"]
  const KIND_NAMES: seq<string> := ["unknown", "check", "instance", "node"]

  datatype Event = Event(
    id: int, time: int, datacenter: string, kind: int, consulIndex: int,
    nodeName: string, nodeIP: string, oldNodeStatus: int, newNodeStatus: int,
    serviceName: string, serviceID: string, team: string, app: string, version: string, tags: seq<string>,
    oldServiceStatus: int, newServiceStatus: int, oldHealthy: int, newHealthy: int, totalInstances: int,
    checkID: string, checkName: string, checkType: string,
    oldCheckStatus: int, newCheckStatus: int, checkOutput: string)
  {
    /** The headline status before the event, selected by its kind. */
    function OldStatus(): int {
      if kind == KIND_NODE then oldNodeStatus
      else if kind == KIND_INSTANCE then oldServiceStatus
      else oldCheckStatus
    }

    function NewStatus(): int {
      if kind == KIND_NODE then newNodeStatus
      else if kind == KIND_INSTANCE then newServiceStatus
      else newCheckStatus
    }
  }

  /** The name at a position, "unknown" outside the table. */
  function NameOf(names: seq<string>, i: int): string {
    if 0 <= i < |names| then names[i] else "unknown"
  }

  /** The first position holding a name. */
  function PositionOf(names: seq<string>, name: string): Option<int> {
    if names == [] then None
    else if names[0] == name then Some(0)
    else
      match PositionOf(names[1..], name)
      case None => None
      case Some(i) => Some(i + 1)
  }

  function StatusName(s: int): string { NameOf(STATUS_NAMES, s) }
  function ParseStatus(s: string): Option<int> { PositionOf(STATUS_NAMES, s) }
  function KindName(k: int): string { NameOf(KIND_NAMES, k) }
  function ParseKind(s: string): Option<int> { PositionOf(KIND_NAMES, s) }

  predicate ValidStatus(s: int) { 0 <= s < |STATUS_NAMES| }
  predicate ValidKind(k: int) { 0 <= k < |KIND_NAMES| }

  predicate Distinct(names: seq<string>) {
    forall i, j | 0 <= i < j < |names| :: names[i] != names[j]
  }

  lemma {:induction false} NamesDistinct()
    ensures Distinct(STATUS_NAMES) && Distinct(KIND_NAMES)
  {
    assert "missing"[0] == 'm' && "warning"[0] == 'w' && "passing"[0] == 'p' && "unknown"[0] == 'u';
    assert |"critical"| == 8 && |"maintenance"| == 11;
    assert |"check"| == 5 && |"instance"| == 8 && |"node"| == 4;
  }

  /** The names that are printed, stored in links and asked for in queries. */
  lemma TableNames()
    ensures StatusName(STATUS_UNKNOWN) == "unknown" && StatusName(STATUS_MISSING) == "missing"
    ensures StatusName(STATUS_CRITICAL) == "critical" && StatusName(STATUS_WARNING) == "warning"
    ensures StatusName(STATUS_PASSING) == "passing" && StatusName(STATUS_MAINTENANCE) == "maintenance"
    ensures KindName(KIND_UNKNOWN) == "unknown" && KindName(KIND_CHECK) == "check"
    ensures KindName(KIND_INSTANCE) == "instance" && KindName(KIND_NODE) == "node"
  {}

  lemma {:induction false} PositionOfFirst(names: seq<string>, name: string)
    ensures PositionOf(names, name) == None ==> name !in names
    ensures PositionOf(names, name).Some? ==>
              var i := PositionOf(names, name).value;
              0 <= i < |names| && names[i] == name && name !in names[..i]
  {
    if names != [] && names[0] != name {
      PositionOfFirst(names[1..], name);
      var p := PositionOf(names[1..], name);
      if p.Some? {
        assert names[..p.value + 1] == [names[0]] + names[1..][..p.value];
      } else {
        assert names == [names[0]] + names[1..];
      }
    }
  }

  /** Printing and parsing a name of a table without repeats are inverse: a parsed position is
      the one position printed as that name, except that "unknown" is also printed for every
      value outside the table. */
  lemma {:induction false} NamesInverse(names: seq<string>, name: string, i: int)
    requires Distinct(names) && names != [] && names[0] == "unknown"
    requires PositionOf(names, name).Some?
    ensures NameOf(names, i) == name <==>
              i == PositionOf(names, name).value || (name == "unknown" && !(0 <= i < |names|))
  {
    PositionOfFirst(names, name);
  }
}
