/** What a query is and which events it accepts (storage/storage.go): the reference that the
    stores and the stream are measured against. */
module Queries {
  import opened Wrappers
  import opened Timeline
  import Decimal

  datatype Field =
    | Datacenter | Service | Node | Check | Kind | Tag | Team | App | Version
    | CheckType | ToStatus | FromStatus | Healthy
    | Unsupported(name: string)

  datatype Filter = Filter(field: Field, values: seq<string>, negated: bool)

  datatype Cursor = Cursor(time: int, id: int)

  const START := Cursor(0, 0)

  datatype Query = Query(
    datacenter: string, from: int, to: int, filters: seq<Filter>, text: string,
    cursor: Cursor, limit: int)

  /** The case folding of text search, one character at a time. */
  type Folding = char -> char

  predicate HasPrefix(s: string, p: string) {
    p <= s
  }

  predicate EndsInStar(s: string) {
    s != "" && s[|s| - 1] == '*'
  }

  function Fold(s: string, fold: Folding): string {
    seq(|s|, i requires 0 <= i < |s| => fold(s[i]))
  }

  predicate ContainsAt(s: string, t: string, i: nat) {
    i + |t| <= |s| && s[i..i + |t|] == t
  }

  predicate Contains(s: string, t: string) {
    exists i | 0 <= i <= |s| :: ContainsAt(s, t, i)
  }

  predicate ValidFilter(f: Filter) {
    && f.values != []
    && match f.field
       case Kind => forall v | v in f.values :: ParseKind(v).Some?
       case ToStatus => forall v | v in f.values :: ParseStatus(v).Some?
       case FromStatus => forall v | v in f.values :: ParseStatus(v).Some?
       case Healthy => forall v | v in f.values :: Decimal.Parse(v).Some?
       case Unsupported(_) => false
       case _ => true
  }

  predicate ValidQuery(q: Query) {
    forall f | f in q.filters :: ValidFilter(f)
  }

  /** The name comparison of the program itself; a database may fold names together. */
  const EXACT: Folding := (c: char) => c

  lemma FoldExact(s: string)
    ensures Fold(s, EXACT) == s
  {
    assert forall i | 0 <= i < |s| :: Fold(s, EXACT)[i] == EXACT(s[i]);
  }

  /** Starred patterns compare the beginning of the name, all others the whole of it. */
  predicate MatchName(name: string, pattern: string, names: Folding) {
    if EndsInStar(pattern) then HasPrefix(Fold(name, names), Fold(pattern[..|pattern| - 1], names))
    else Fold(name, names) == Fold(pattern, names)
  }

  predicate IsName(field: Field) {
    field in {Datacenter, Service, Node, Check, Team, App, Version}
  }

  function NameOfField(field: Field, e: Event): string {
    match field
    case Datacenter => e.datacenter
    case Service => e.serviceName
    case Node => e.nodeName
    case Check => e.checkName
    case Team => e.team
    case App => e.app
    case Version => e.version
    case _ => ""
  }

  predicate MatchOne(field: Field, e: Event, v: string, names: Folding) {
    match field
    case CheckType => Fold(e.checkType, names) == Fold(v, names)
    case Kind => KindName(e.kind) == v
    case Tag => exists t | t in e.tags :: MatchName(t, v, EXACT)
    case ToStatus => StatusName(e.NewStatus()) == v
    case FromStatus => StatusName(e.OldStatus()) == v
    case Healthy => Decimal.Parse(v) == Some(e.newHealthy)
    case Unsupported(_) => false
    case _ => MatchName(NameOfField(field, e), v, names)
  }

  predicate MatchFilter(f: Filter, e: Event, names: Folding) {
    exists v | v in f.values :: MatchOne(f.field, e, v, names)
  }

  predicate MatchFilters(filters: seq<Filter>, e: Event, names: Folding) {
    forall f | f in filters :: MatchFilter(f, e, names) != f.negated
  }

  predicate MatchText(text: string, e: Event, fold: Folding) {
    var t := Fold(text, fold);
    || Contains(Fold(e.checkOutput, fold), t)
    || Contains(Fold(e.serviceName, fold), t)
    || Contains(Fold(e.nodeName, fold), t)
    || Contains(Fold(e.checkName, fold), t)
  }

  /** The meaning of a query with the way of comparing left open: names are the same up to one
      folding, text is found up to another. Where a page starts and how long it is play no part. */
  predicate MatchUnder(e: Event, q: Query, names: Folding, text: Folding) {
    && (q.datacenter != "" ==> Fold(e.datacenter, names) == Fold(q.datacenter, names))
    && (q.from != 0 ==> q.from <= e.time)
    && (q.to != 0 ==> e.time <= q.to)
    && MatchFilters(q.filters, e, names)
    && (q.text != "" ==> MatchText(q.text, e, text))
  }

  /** The program's own matching: exact names, text in lower case. */
  predicate Match(e: Event, q: Query, lower: Folding) {
    MatchUnder(e, q, EXACT, lower)
  }

  /** The two ways of splitting a bucket. */
  datatype Split = ByStatus | ByDatacenter

  function BucketKey(e: Event, split: Split): string {
    if split == ByDatacenter then e.datacenter else StatusName(e.NewStatus())
  }

  // ---- which queries are accepted ----------------------------------------------

  const BLANK: Event :=
    Event(0, 0, "", 0, 0, "", "", 0, 0, "", "", "", "", "", [], 0, 0, 0, 0, 0, "", "", "", 0, 0, "")

  /** An event that a value of a filter matches. */
  function Example(field: Field, v: string): Event {
    var name := if EndsInStar(v) then v[..|v| - 1] else v;
    match field
    case Datacenter => BLANK.(datacenter := name)
    case Service => BLANK.(serviceName := name)
    case Node => BLANK.(nodeName := name)
    case Check => BLANK.(checkName := name)
    case Team => BLANK.(team := name)
    case App => BLANK.(app := name)
    case Version => BLANK.(version := name)
    case Tag => BLANK.(tags := [name])
    case CheckType => BLANK.(checkType := v)
    case Kind => BLANK.(kind := if ParseKind(v).Some? then ParseKind(v).value else 0)
    case ToStatus => BLANK.(newCheckStatus := if ParseStatus(v).Some? then ParseStatus(v).value else 0)
    case FromStatus => BLANK.(oldCheckStatus := if ParseStatus(v).Some? then ParseStatus(v).value else 0)
    case Healthy => BLANK.(newHealthy := if Decimal.Parse(v).Some? then Decimal.Parse(v).value else 0)
    case Unsupported(_) => BLANK
  }

  lemma NamesParse(names: seq<string>, v: string, i: int)
    requires Distinct(names) && names != [] && names[0] == "unknown"
    ensures NameOf(names, i) == v ==> PositionOf(names, v).Some?
    ensures PositionOf(names, v).Some? ==> NameOf(names, PositionOf(names, v).value) == v
  {
    PositionOfFirst(names, v);
  }

  /** A field that is supported by a filter, and a value it may have. */
  ghost predicate ValidValue(field: Field, v: string) {
    match field
    case Kind => ParseKind(v).Some?
    case ToStatus => ParseStatus(v).Some?
    case FromStatus => ParseStatus(v).Some?
    case Healthy => Decimal.Parse(v).Some?
    case Unsupported(_) => false
    case _ => true
  }

  lemma TextValueMatches(field: Field, v: string)
    requires IsName(field) || field == Tag || field == CheckType
    ensures MatchOne(field, Example(field, v), v, EXACT)
  {
    var name := if EndsInStar(v) then v[..|v| - 1] else v;
    FoldExact(v);
    FoldExact(name);
    assert MatchName(name, v, EXACT);
    hide MatchName;
    hide Fold;
    if field == Tag {
      assert name in Example(field, v).tags;
    }
  }

  lemma ValueMatchesSome(field: Field, v: string)
    requires ValidValue(field, v)
    ensures MatchOne(field, Example(field, v), v, EXACT)
  {
    NamesDistinct();
    if IsName(field) || field == Tag || field == CheckType {
      TextValueMatches(field, v);
    } else {
      hide MatchName;
      NamesParse(KIND_NAMES, v, 0);
      NamesParse(STATUS_NAMES, v, 0);
      hide Distinct;
      hide NameOf;
      hide PositionOf;
    }
  }

  lemma MatchedValueValid(field: Field, v: string, e: Event)
    requires MatchOne(field, e, v, EXACT)
    ensures ValidValue(field, v)
  {
    NamesDistinct();
    hide MatchName;
    NamesParse(KIND_NAMES, v, e.kind);
    NamesParse(STATUS_NAMES, v, e.NewStatus());
    NamesParse(STATUS_NAMES, v, e.OldStatus());
    hide Distinct;
    hide NameOf;
    hide PositionOf;
  }

  /** A filter is accepted exactly when it has values and each of them could match some event. */
  lemma ValidFilterExactly(f: Filter)
    ensures ValidFilter(f) <==> f.values != [] && forall v | v in f.values :: exists e :: MatchOne(f.field, e, v, EXACT)
  {
    hide MatchOne;
    forall v
      ensures ValidValue(f.field, v) <==> exists e :: MatchOne(f.field, e, v, EXACT)
    {
      if ValidValue(f.field, v) {
        ValueMatchesSome(f.field, v);
      }
      if e :| MatchOne(f.field, e, v, EXACT) {
        MatchedValueValid(f.field, v, e);
      }
    }
    if f.values != [] && forall v | v in f.values :: ValidValue(f.field, v) {
      assert f.values[0] in f.values && ValidValue(f.field, f.values[0]);
    }
    assert ValidFilter(f) <==> f.values != [] && forall v | v in f.values :: ValidValue(f.field, v);
  }
}
