/** The fragment of SQL the program writes, as text: a sequence of lexical tokens whose `?`
    stand for positional arguments, and a left-to-right evaluator with SQL's precedence
    (OR below AND below NOT below the comparison predicates). */
module Sql {
  import opened Wrappers
  import opened Timeline
  import opened Queries
  import opened Sequences
  import Like

  datatype Column =
    | Id | Time | Dc | ServiceName | NodeName | CheckName | TeamName | AppName | VersionName | TypeName
    | Output | KindCode | NewStatus | OldStatus | NewHealthy
    | Minute                // of the rollup

  datatype Token =
    | Col(col: Column)
    | Param                 // ?
    | Open | Close | Comma
    | And | Or | Not
    | Equals | Less | LikeOp | Between | In
    | TagsContain           // JSON_CONTAINS(tags, JSON_QUOTE(?))
    | TagsSearch            // JSON_SEARCH(tags, 'one', ?) IS NOT NULL

  type Text = seq<Token>

  datatype Arg = Str(s: string) | Num(n: int)

  /** A row of events_v2: the event as stored, and its denormalised headline statuses. A row of the
      rollup is one whose time is its minute. */
  datatype Row = Row(event: Event, oldStatus: int, newStatus: int)

  function StringColumn(row: Row, col: Column): Option<string> {
    match col
    case Dc => Some(row.event.datacenter)
    case ServiceName => Some(row.event.serviceName)
    case NodeName => Some(row.event.nodeName)
    case CheckName => Some(row.event.checkName)
    case TeamName => Some(row.event.team)
    case AppName => Some(row.event.app)
    case VersionName => Some(row.event.version)
    case TypeName => Some(row.event.checkType)
    case Output => Some(row.event.checkOutput)
    case _ => None
  }

  function NumericColumn(row: Row, col: Column): Option<int> {
    match col
    case Id => Some(row.event.id)
    case Time => Some(row.event.time)
    case Minute => Some(row.event.time)
    case KindCode => Some(row.event.kind)
    case NewStatus => Some(row.newStatus)
    case OldStatus => Some(row.oldStatus)
    case NewHealthy => Some(row.event.newHealthy)
    case _ => None
  }

  predicate HasStr(args: seq<Arg>) {
    args != [] && args[0].Str?
  }

  predicate HasNum(args: seq<Arg>) {
    args != [] && args[0].Num?
  }

  /** The value of a piece of text, and what it leaves unread. */
  datatype Reading = Reading(holds: bool, text: Text, args: seq<Arg>)

  function Compare(row: Row, col: Column, op: Token, args: seq<Arg>, coll: Folding): Option<bool> {
    match StringColumn(row, col)
    case Some(s) =>
      if !HasStr(args) then None
      else if op == Equals then Some(Fold(s, coll) == Fold(args[0].s, coll))
      else if op == LikeOp then Some(Like.Matches(s, args[0].s, coll))
      else None
    case None =>
      match NumericColumn(row, col)
      case Some(n) =>
        if !HasNum(args) then None
        else if op == Equals then Some(n == args[0].n)
        else if op == Less then Some(n < args[0].n)
        else None
      case None => None
  }

  function ReadIn(n: int, text: Text, args: seq<Arg>): (r: Option<Reading>)
    ensures r.Some? ==> |r.value.text| < |text|
  {
    if |text| < 2 || text[0] != Param || !HasNum(args) then None
    else if text[1] == Close then Some(Reading(n == args[0].n, text[2..], args[1..]))
    else if text[1] != Comma then None
    else
      match ReadIn(n, text[2..], args[1..])
      case None => None
      case Some(r) => Some(r.(holds := n == args[0].n || r.holds))
  }

  function ReadPredicate(row: Row, text: Text, args: seq<Arg>, coll: Folding): (r: Option<Reading>)
    ensures r.Some? ==> |r.value.text| < |text|
    decreases |text|, 0
  {
    if text == [] then None
    else if text[0] == Open then
      match ReadOr(row, text[1..], args, coll)
      case None => None
      case Some(r) => if r.text != [] && r.text[0] == Close then Some(r.(text := r.text[1..])) else None
    else if text[0] == TagsContain then
      if HasStr(args) then
        Some(Reading(args[0].s in row.event.tags, text[1..], args[1..]))
      else None
    else if text[0] == TagsSearch then
      if HasStr(args) then
        Some(Reading(exists t | t in row.event.tags :: Like.Matches(t, args[0].s, EXACT), text[1..], args[1..]))
      else None
    else if text[0].Col? && |text| >= 3 then
      if text[1] == In then
        if text[2] == Open && NumericColumn(row, text[0].col).Some?
        then ReadIn(NumericColumn(row, text[0].col).value, text[3..], args)
        else None
      else if text[1] == Between then
        match NumericColumn(row, text[0].col)
        case Some(n) =>
          if |text| >= 5 && text[2..5] == [Param, And, Param] && HasNum(args) && HasNum(args[1..])
          then Some(Reading(args[0].n <= n <= args[1].n, text[5..], args[2..]))
          else None
        case None => None
      else if text[2] == Param then
        match Compare(row, text[0].col, text[1], args, coll)
        case Some(b) => Some(Reading(b, text[3..], args[1..]))
        case None => None
      else None
    else None
  }

  function ReadNot(row: Row, text: Text, args: seq<Arg>, coll: Folding): (r: Option<Reading>)
    ensures r.Some? ==> |r.value.text| < |text|
    decreases |text|, 1
  {
    if text != [] && text[0] == Not then
      match ReadNot(row, text[1..], args, coll)
      case None => None
      case Some(r) => Some(r.(holds := !r.holds))
    else ReadPredicate(row, text, args, coll)
  }

  function ReadAnd(row: Row, text: Text, args: seq<Arg>, coll: Folding): (r: Option<Reading>)
    ensures r.Some? ==> |r.value.text| < |text|
    decreases |text|, 2
  {
    match ReadNot(row, text, args, coll)
    case None => None
    case Some(l) =>
      if l.text != [] && l.text[0] == And then
        match ReadAnd(row, l.text[1..], l.args, coll)
        case None => None
        case Some(r) => Some(r.(holds := l.holds && r.holds))
      else Some(l)
  }

  function ReadOr(row: Row, text: Text, args: seq<Arg>, coll: Folding): (r: Option<Reading>)
    ensures r.Some? ==> |r.value.text| < |text|
    decreases |text|, 3
  {
    match ReadAnd(row, text, args, coll)
    case None => None
    case Some(l) =>
      if l.text != [] && l.text[0] == Or then
        match ReadOr(row, l.text[1..], l.args, coll)
        case None => None
        case Some(r) => Some(r.(holds := l.holds || r.holds))
      else Some(l)
  }

  /** A whole condition: every token and every argument must be used. */
  function Evaluate(row: Row, text: Text, args: seq<Arg>, coll: Folding): Option<bool> {
    match ReadOr(row, text, args, coll)
    case Some(r) => if r.text == [] && r.args == [] then Some(r.holds) else None
    case None => None
  }

  /** `strings.Join`. */
  function Join(parts: seq<Text>, sep: Token): Text {
    if parts == [] then [] else if |parts| == 1 then parts[0] else parts[0] + [sep] + Join(parts[1..], sep)
  }

  lemma JoinTwo(a: Text, b: Text, sep: Token)
    ensures Join([a, b], sep) == a + [sep] + b
  {
    assert [a, b][1..] == [b];
  }

  /** A text that, wherever it stands, reads as one predicate with a value, using up exactly
      its own arguments. */
  ghost predicate Means(row: Row, coll: Folding, text: Text, args: seq<Arg>, b: bool) {
    forall rest, more :: ReadNot(row, text + rest, args + more, coll) == Some(Reading(b, rest, more))
  }

  lemma ReadsAt(row: Row, coll: Folding, text: Text, args: seq<Arg>, b: bool, rest: Text, more: seq<Arg>)
    requires Means(row, coll, text, args, b)
    ensures ReadNot(row, text + rest, args + more, coll) == Some(Reading(b, rest, more))
  {}

  ghost predicate AllMean(row: Row, coll: Folding, parts: seq<Text>, groups: seq<seq<Arg>>, bs: seq<bool>) {
    && 0 < |parts| == |groups| == |bs|
    && forall i | 0 <= i < |parts| :: Means(row, coll, parts[i], groups[i], bs[i])
  }

  predicate Continues(rest: Text, op: Token) {
    rest != [] && rest[0] == op
  }

  predicate AllTrue(bs: seq<bool>) {
    forall i | 0 <= i < |bs| :: bs[i]
  }

  predicate AnyTrue(bs: seq<bool>) {
    exists i | 0 <= i < |bs| :: bs[i]
  }

  lemma TrueCons(bs: seq<bool>)
    requires bs != []
    ensures AllTrue(bs) <==> bs[0] && AllTrue(bs[1..])
    ensures AnyTrue(bs) <==> bs[0] || AnyTrue(bs[1..])
  {
    assert forall i | 1 <= i < |bs| :: bs[i] == bs[1..][i - 1];
  }

  /** The first of several joined parts reads as itself, in front of the rest. */
  lemma FirstReads(row: Row, coll: Folding, parts: seq<Text>, groups: seq<seq<Arg>>, bs: seq<bool>,
                   op: Token, rest: Text, more: seq<Arg>)
    requires AllMean(row, coll, parts, groups, bs)
    ensures |parts| == 1 ==>
              ReadNot(row, Join(parts, op) + rest, Concat(groups) + more, coll) == Some(Reading(bs[0], rest, more))
    ensures |parts| > 1 ==>
              ReadNot(row, Join(parts, op) + rest, Concat(groups) + more, coll) ==
              Some(Reading(bs[0], [op] + (Join(parts[1..], op) + rest), Concat(groups[1..]) + more))
  {
    hide ReadNot;
    hide Means;
    if |parts| == 1 {
      ReadsAt(row, coll, parts[0], groups[0], bs[0], rest, more);
      assert Concat(groups) == groups[0];
    } else {
      var tail, last := Join(parts[1..], op) + rest, Concat(groups[1..]) + more;
      ReadsAt(row, coll, parts[0], groups[0], bs[0], [op] + tail, last);
      assert Join(parts, op) + rest == parts[0] + ([op] + tail);
      assert Concat(groups) + more == groups[0] + last;
    }
  }

  lemma AllMeanTail(row: Row, coll: Folding, parts: seq<Text>, groups: seq<seq<Arg>>, bs: seq<bool>)
    requires AllMean(row, coll, parts, groups, bs) && |parts| > 1
    ensures AllMean(row, coll, parts[1..], groups[1..], bs[1..])
  {
    hide Means;
  }

  /** Predicates joined with AND read as their conjunction. */
  lemma {:induction false} JoinedAnd(row: Row, coll: Folding, parts: seq<Text>, groups: seq<seq<Arg>>, bs: seq<bool>,
                                     rest: Text, more: seq<Arg>)
    requires AllMean(row, coll, parts, groups, bs) && !Continues(rest, And)
    ensures ReadAnd(row, Join(parts, And) + rest, Concat(groups) + more, coll)
         == Some(Reading(AllTrue(bs), rest, more))
  {
    hide ReadNot;
    hide Means;
    hide Join;
    hide Concat;
    FirstReads(row, coll, parts, groups, bs, And, rest, more);
    TrueCons(bs);
    if |parts| > 1 {
      AllMeanTail(row, coll, parts, groups, bs);
      JoinedAnd(row, coll, parts[1..], groups[1..], bs[1..], rest, more);
      var tail := Join(parts[1..], And) + rest;
      assert ([And] + tail)[1..] == tail;
    }
  }

  lemma AndOfOne(row: Row, coll: Folding, text: Text, args: seq<Arg>)
    requires ReadNot(row, text, args, coll).Some? && !Continues(ReadNot(row, text, args, coll).value.text, And)
    ensures ReadAnd(row, text, args, coll) == ReadNot(row, text, args, coll)
  {
    hide ReadNot;
  }

  lemma OrOfOne(row: Row, coll: Folding, text: Text, args: seq<Arg>)
    requires ReadAnd(row, text, args, coll).Some? && !Continues(ReadAnd(row, text, args, coll).value.text, Or)
    ensures ReadOr(row, text, args, coll) == ReadAnd(row, text, args, coll)
  {
    hide ReadAnd;
  }

  /** Predicates joined with OR read as their disjunction. */
  lemma {:induction false} JoinedOr(row: Row, coll: Folding, parts: seq<Text>, groups: seq<seq<Arg>>, bs: seq<bool>,
                                    rest: Text, more: seq<Arg>)
    requires AllMean(row, coll, parts, groups, bs) && !Continues(rest, Or) && !Continues(rest, And)
    ensures ReadOr(row, Join(parts, Or) + rest, Concat(groups) + more, coll)
         == Some(Reading(AnyTrue(bs), rest, more))
  {
    hide ReadAnd;
    hide ReadNot;
    hide Means;
    hide Join;
    hide Concat;
    FirstReads(row, coll, parts, groups, bs, Or, rest, more);
    AndOfOne(row, coll, Join(parts, Or) + rest, Concat(groups) + more);
    TrueCons(bs);
    if |parts| > 1 {
      AllMeanTail(row, coll, parts, groups, bs);
      JoinedOr(row, coll, parts[1..], groups[1..], bs[1..], rest, more);
      var tail := Join(parts[1..], Or) + rest;
      assert ([Or] + tail)[1..] == tail;
    }
  }

  /** A parenthesised disjunction is itself a predicate. */
  lemma ParenthesisedOr(row: Row, coll: Folding, parts: seq<Text>, groups: seq<seq<Arg>>, bs: seq<bool>)
    requires AllMean(row, coll, parts, groups, bs)
    ensures Means(row, coll, [Open] + Join(parts, Or) + [Close], Concat(groups), AnyTrue(bs))
  {
    hide AllMean;
    hide AnyTrue;
    hide Join;
    hide Concat;
    var text := [Open] + Join(parts, Or) + [Close];
    forall rest, more
      ensures ReadNot(row, text + rest, Concat(groups) + more, coll)
           == Some(Reading(AnyTrue(bs), rest, more))
    {
      JoinedOr(row, coll, parts, groups, bs, [Close] + rest, more);
      assert (text + rest)[1..] == Join(parts, Or) + ([Close] + rest);
    }
  }

  /** So is a parenthesised conjunction. */
  lemma ParenthesisedAnd(row: Row, coll: Folding, parts: seq<Text>, groups: seq<seq<Arg>>, bs: seq<bool>)
    requires AllMean(row, coll, parts, groups, bs)
    ensures Means(row, coll, [Open] + Join(parts, And) + [Close], Concat(groups), AllTrue(bs))
  {
    hide AllMean;
    hide AllTrue;
    hide ReadAnd;
    hide Join;
    hide Concat;
    var text := [Open] + Join(parts, And) + [Close];
    forall rest, more
      ensures ReadNot(row, text + rest, Concat(groups) + more, coll) == Some(Reading(AllTrue(bs), rest, more))
    {
      JoinedAnd(row, coll, parts, groups, bs, [Close] + rest, more);
      OrOfOne(row, coll, Join(parts, And) + ([Close] + rest), Concat(groups) + more);
      assert (text + rest)[1..] == Join(parts, And) + ([Close] + rest);
    }
  }

  lemma {:induction false} JoinAppend(parts: seq<Text>, part: Text, sep: Token)
    requires parts != []
    ensures Join(parts + [part], sep) == Join(parts, sep) + [sep] + part
  {
    assert (parts + [part])[1..] == parts[1..] + [part];
    if |parts| > 1 {
      JoinAppend(parts[1..], part, sep);
    }
  }

  lemma NegatedMeans(row: Row, coll: Folding, text: Text, args: seq<Arg>, b: bool)
    requires Means(row, coll, text, args, b)
    ensures Means(row, coll, [Not] + text, args, !b)
  {
    forall rest, more
      ensures ReadNot(row, [Not] + text + rest, args + more, coll) == Some(Reading(!b, rest, more))
    {
      assert ([Not] + text + rest)[1..] == text + rest;
    }
  }

  lemma ComparisonMeans(row: Row, coll: Folding, col: Column, op: Token, arg: Arg)
    requires op in {Equals, Less, LikeOp} && Compare(row, col, op, [arg], coll).Some?
    ensures Means(row, coll, [Col(col), op, Param], [arg], Compare(row, col, op, [arg], coll).value)
  {
    forall rest, more
      ensures ReadNot(row, [Col(col), op, Param] + rest, [arg] + more, coll)
           == Some(Reading(Compare(row, col, op, [arg], coll).value, rest, more))
    {
      assert ([Col(col), op, Param] + rest)[3..] == rest && ([arg] + more)[1..] == more;
    }
  }

  lemma TagMeans(row: Row, coll: Folding, op: Token, v: string)
    requires op in {TagsContain, TagsSearch}
    ensures Means(row, coll, [op], [Str(v)],
                  if op == TagsContain then v in row.event.tags
                  else exists t | t in row.event.tags :: Like.Matches(t, v, EXACT))
  {
    forall rest, more
      ensures ReadNot(row, [op] + rest, [Str(v)] + more, coll)
           == Some(Reading(if op == TagsContain then v in row.event.tags
                           else exists t | t in row.event.tags :: Like.Matches(t, v, EXACT), rest, more))
    {
      assert ([op] + rest)[1..] == rest && ([Str(v)] + more)[1..] == more;
    }
  }

  lemma BetweenMeans(row: Row, coll: Folding, col: Column, lo: int, hi: int)
    requires NumericColumn(row, col).Some?
    ensures Means(row, coll, [Col(col), Between, Param, And, Param], [Num(lo), Num(hi)],
                  lo <= NumericColumn(row, col).value <= hi)
  {
    var text := [Col(col), Between, Param, And, Param];
    forall rest, more
      ensures ReadNot(row, text + rest, [Num(lo), Num(hi)] + more, coll)
           == Some(Reading(lo <= NumericColumn(row, col).value <= hi, rest, more))
    {
      var args := [Num(lo), Num(hi)] + more;
      assert (text + rest)[5..] == rest && (text + rest)[2..5] == [Param, And, Param];
      assert args[2..] == more && HasNum(args[1..]);
    }
  }

  function ParamParts(k: nat): seq<Text> {
    seq(k, _ => [Param])
  }

  /** The placeholders of an IN list. */
  function Params(k: nat): Text {
    Join(ParamParts(k), Comma)
  }

  function NumArgs(values: seq<int>): seq<Arg> {
    seq(|values|, i requires 0 <= i < |values| => Num(values[i]))
  }

  lemma MoreParams(k: nat)
    requires k > 1
    ensures Params(k) == [Param, Comma] + Params(k - 1)
  {
    assert ParamParts(k)[1..] == ParamParts(k - 1);
  }

  /** A list of placeholders reads as membership. */
  lemma {:induction false} ParamsIn(n: int, values: seq<int>, text: Text, args: seq<Arg>)
    requires values != [] && Params(|values|) + [Close] <= text && NumArgs(values) <= args
    decreases |values|
    ensures ReadIn(n, text, args) == Some(Reading(n in values, text[|Params(|values|)| + 1..], args[|values|..]))
  {
    assert args[0] == NumArgs(values)[0];
    if |values| == 1 {
      assert Params(1) == [Param];
    } else {
      hide Params;
      MoreParams(|values|);
      assert NumArgs(values[1..]) == NumArgs(values)[1..];
      ParamsIn(n, values[1..], text[2..], args[1..]);
    }
  }

  lemma InMeans(row: Row, coll: Folding, col: Column, values: seq<int>)
    requires values != [] && NumericColumn(row, col).Some?
    ensures Means(row, coll, [Col(col), In, Open] + Params(|values|) + [Close],
                  NumArgs(values), NumericColumn(row, col).value in values)
  {
    hide Params;
    hide ReadIn;
    var text := [Col(col), In, Open] + Params(|values|) + [Close];
    forall rest, more
      ensures ReadNot(row, text + rest, NumArgs(values) + more, coll)
           == Some(Reading(NumericColumn(row, col).value in values, rest, more))
    {
      var list := Params(|values|) + [Close] + rest;
      ParamsIn(NumericColumn(row, col).value, values, list, NumArgs(values) + more);
      assert (text + rest)[3..] == list;
    }
  }
}
