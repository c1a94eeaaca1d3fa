/** The query tree of the item database. Every node has two meanings: `Clause`,
    the SQL `WHERE` fragment and positional parameters it compiles to (or a
    refusal, which sends the caller to the slow path), and `Matches`, its test
    of one record in memory. */
module Queries {
  import opened Base
  import opened Text
  import opened Calendar
  import opened Periods
  import Like

  /** `(clause, subvals)`: a `WHERE` fragment, or `None` to refuse, and the
      values bound to its `?` placeholders in order. */
  datatype Fragment = Fragment(text: Option<string>, subvals: seq<Value>)

  /** `(None, ())`: the node cannot be compiled. */
  const Refused := Fragment(None, [])

  /** What `clause_with_joiner` treats as a refusal: `None`, and also `''`. */
  predicate Falsy(c: Fragment) {
    c.text.None? || c.text == Some("")
  }

  function TextOf(c: Fragment): string {
    match c.text
    case None => ""
    case Some(t) => t
  }

  /** What `match` calls and this model does not define. */
  datatype Env = Env(
    asString: Value -> string,                  // util.as_string
    search: (string, string) -> Option<bool>,   // re.search(pattern, value) is not None; None when re.error is raised
    utcDate: Value -> Date)                     // datetime.utcfromtimestamp(float(value)), calendar day only

  /** The leaf classes `AnyFieldQuery` can be given as `cls`. */
  datatype LeafKind = MatchKind | SubstringKind | RegexpKind | NumericKind | DateKind

  datatype Query =
    | MatchQuery(field: string, value: Value, fast: bool)
    | SubstringQuery(field: string, pattern: string, fast: bool)
    | RegexpQuery(field: string, pattern: string, fast: bool)
    | NumericQuery(field: string, pattern: string, fast: bool,
                   point: Option<int>, rangemin: Option<int>, rangemax: Option<int>)
    | DateQuery(field: string, pattern: string, fast: bool, interval: DateInterval)
    | AnyFieldQuery(pattern: string, fields: seq<string>, kind: LeafKind, subqueries: seq<Query>)
    | AndQuery(subqueries: seq<Query>)
    | OrQuery(subqueries: seq<Query>)
    | TrueQuery
    | FalseQuery

  /** The `FieldQuery` subclasses. */
  predicate IsLeaf(q: Query) {
    q.MatchQuery? || q.SubstringQuery? || q.RegexpQuery? || q.NumericQuery? || q.DateQuery?
  }

  // ---------------------------------------------------------------- compiling

  /** `SubstringQuery.col_clause`'s escaping: `\` first, then `%` and `_`. */
  function EscapeLike(p: string): string {
    ReplaceChar(ReplaceChar(ReplaceChar(p, '\\', "\\\\"), '%', "\\%"), '_', "\\_")
  }

  /** The LIKE pattern bound for a substring search. */
  function SubstringSearch(p: string): string {
    "%" + EscapeLike(p) + "%"
  }

  /** `NumericQuery.col_clause`. */
  function NumericColClause(field: string, point: Option<int>, rangemin: Option<int>, rangemax: Option<int>): (c: Fragment)
    ensures c.text.Some? && (c.text == Some("1") <==> c.subvals == [])
    ensures point.Some? ==> c == Fragment(Some(field + "=?"), [Int(point.value)])
    ensures point.None? ==> |c.subvals| == (if rangemin.Some? then 1 else 0) + (if rangemax.Some? then 1 else 0)
    ensures point.None? && rangemin.Some? ==> c.subvals[0] == Int(rangemin.value)
    ensures point.None? && rangemax.Some? ==> c.subvals[|c.subvals| - 1] == Int(rangemax.value)
  {
    if point.Some? then Fragment(Some(field + "=?"), [Int(point.value)])
    else if rangemin.Some? && rangemax.Some? then
      Fragment(Some(field + " >= ? AND " + field + " <= ?"), [Int(rangemin.value), Int(rangemax.value)])
    else if rangemin.Some? then Fragment(Some(field + " >= ?"), [Int(rangemin.value)])
    else if rangemax.Some? then Fragment(Some(field + " <= ?"), [Int(rangemax.value)])
    else Fragment(Some("1"), [])
  }

  /** `DateQuery.col_clause`: `field >= ?` for a start, `field < ?` for an end,
      in that order, joined by `AND`; `1` when the interval is unbounded. */
  function DateColClause(field: string, iv: DateInterval, utcOffset: int): (c: Fragment)
    ensures c.text.Some? && (c.text == Some("1") <==> c.subvals == [])
    ensures |c.subvals| == (if iv.start.Some? then 1 else 0) + (if iv.end.Some? then 1 else 0)
    ensures iv.start.Some? ==> c.subvals[0] == Int(LocalEpochSeconds(iv.start.value, utcOffset))
    ensures iv.end.Some? ==> c.subvals[|c.subvals| - 1] == Int(LocalEpochSeconds(iv.end.value, utcOffset))
    ensures iv.start.Some? && iv.end.Some? ==> c.text == Some(field + " >= ? AND " + field + " < ?")
    ensures iv.start.Some? && iv.end.None? ==> c.text == Some(field + " >= ?")
    ensures iv.start.None? && iv.end.Some? ==> c.text == Some(field + " < ?")
  {
    var lo := field + " >= ?";
    var hi := field + " < ?";
    match (iv.start, iv.end)
    case (Some(a), Some(b)) =>
      assert [lo, hi][..1] == [lo];
      assert " >= ?" + " AND " == " >= ? AND ";
      assert Join(" AND ", [lo, hi]) == field + " >= ? AND " + field + " < ?";
      Fragment(Some(Join(" AND ", [lo, hi])), [Int(LocalEpochSeconds(a, utcOffset)), Int(LocalEpochSeconds(b, utcOffset))])
    case (Some(a), None) => Fragment(Some(Join(" AND ", [lo])), [Int(LocalEpochSeconds(a, utcOffset))])
    case (None, Some(b)) => Fragment(Some(Join(" AND ", [hi])), [Int(LocalEpochSeconds(b, utcOffset))])
    case (None, None) => Fragment(Some("1"), [])
  }

  /** `col_clause` of each leaf; `RegexpQuery` inherits the refusing one. */
  function ColClause(q: Query, utcOffset: int): Fragment
    requires IsLeaf(q)
  {
    match q
    case MatchQuery(field, value, _) => Fragment(Some(field + " = ?"), [value])
    case SubstringQuery(field, pattern, _) => Fragment(Some(field + " like ? escape '\\'"), [Str(SubstringSearch(pattern))])
    case RegexpQuery(_, _, _) => Refused
    case NumericQuery(field, _, _, point, rangemin, rangemax) => NumericColClause(field, point, rangemin, rangemax)
    case DateQuery(field, _, _, iv) => DateColClause(field, iv, utcOffset)
  }

  /** `"(" + c + ")"` for each child clause. */
  function Parenthesized(cs: seq<Fragment>): (r: seq<string>)
    ensures |r| == |cs| && forall i :: 0 <= i < |cs| ==> r[i] == "(" + TextOf(cs[i]) + ")"
  {
    seq(|cs|, i requires 0 <= i < |cs| => "(" + TextOf(cs[i]) + ")")
  }

  /** The children's parameter lists, concatenated in child order. */
  function Subvals(cs: seq<Fragment>): seq<Value> {
    if |cs| == 0 then [] else Subvals(cs[..|cs| - 1]) + cs[|cs| - 1].subvals
  }

  /** `clause_with_joiner` on the children's clauses: refuse if any child is
      falsy, otherwise join the parenthesized clauses with ` joiner `. */
  function JoinClauses(cs: seq<Fragment>, joiner: string): Fragment {
    if exists i :: 0 <= i < |cs| && Falsy(cs[i]) then Refused
    else Fragment(Some(Join(" " + joiner + " ", Parenthesized(cs))), Subvals(cs))
  }

  /** The clauses of a list of subqueries. */
  function ChildClauses(subs: seq<Query>, utcOffset: int): (cs: seq<Fragment>)
    decreases subs
    ensures |cs| == |subs| && forall i :: 0 <= i < |subs| ==> cs[i] == Clause(subs[i], utcOffset)
  {
    seq(|subs|, i requires 0 <= i < |subs| => Clause(subs[i], utcOffset))
  }

  /** `q.clause()`, where `utcOffset` fixes the local time zone that
      `_to_epoch_time` reads. */
  function Clause(q: Query, utcOffset: int): Fragment
    decreases q
  {
    match q
    case AnyFieldQuery(_, _, _, subs) => JoinClauses(ChildClauses(subs, utcOffset), "or")
    case AndQuery(subs) => JoinClauses(ChildClauses(subs, utcOffset), "and")
    case OrQuery(subs) => JoinClauses(ChildClauses(subs, utcOffset), "or")
    case TrueQuery => Fragment(Some("1"), [])
    case FalseQuery => Fragment(Some("0"), [])
    case _ => if q.fast then ColClause(q, utcOffset) else Refused
  }

  /** Extending the children by one extends their parenthesized clauses and
      their parameters by that child's. */
  lemma ChildStep(cs: seq<Fragment>, i: nat)
    requires i < |cs|
    ensures Parenthesized(cs[..i + 1]) == Parenthesized(cs[..i]) + ["(" + TextOf(cs[i]) + ")"]
    ensures Subvals(cs[..i + 1]) == Subvals(cs[..i]) + cs[i].subvals
  {
    assert cs[..i + 1][..i] == cs[..i];
  }

  /** `clause_with_joiner` as written: the loop stops at the first falsy child. */
  method ClauseWithJoiner(subqueries: seq<Query>, joiner: string, utcOffset: int) returns (c: Fragment)
    ensures c == JoinClauses(ChildClauses(subqueries, utcOffset), joiner)
  {
    ghost var cs := ChildClauses(subqueries, utcOffset);
    var clauseParts: seq<string> := [];
    var subvals: seq<Value> := [];
    var i := 0;
    while i < |subqueries|
      invariant 0 <= i <= |subqueries|
      invariant forall j :: 0 <= j < i ==> !Falsy(cs[j])
      invariant clauseParts == Parenthesized(cs[..i])
      invariant subvals == Subvals(cs[..i])
    {
      var sub := Clause(subqueries[i], utcOffset);
      assert sub == cs[i];
      if Falsy(sub) {
        return Refused;
      }
      assert !Falsy(cs[i]);
      ChildStep(cs, i);
      clauseParts := clauseParts + ["(" + sub.text.value + ")"];
      subvals := subvals + sub.subvals;
      i := i + 1;
    }
    assert cs[..i] == cs;
    c := Fragment(Some(Join(" " + joiner + " ", clauseParts)), subvals);
  }

  // ---------------------------------------------------------------- matching

  /** `SubstringQuery.string_match`: case-insensitive containment. */
  predicate SubstringMatch(pattern: string, value: string) {
    Contains(LowerStr(value), LowerStr(pattern))
  }

  /** `RegexpQuery.string_match`: an invalid pattern matches nothing. */
  predicate RegexpMatch(env: Env, pattern: string, value: string) {
    match env.search(pattern, value)
    case None => false
    case Some(found) => found
  }

  /** A byte string read as text, one character per byte. */
  function Latin1(b: seq<byte>): string {
    seq(|b|, i requires 0 <= i < |b| => (b[i] as int) as char)
  }

  /** The value `NumericQuery.match` compares: strings go through `_convert`,
      integers are kept, a missing value is `None`. */
  function NumericValue(v: Value): Option<int> {
    match v
    case Null => None
    case Int(i) => Some(i)
    case Str(s) => ParseInt(s)
    case Bytes(b) => ParseInt(Latin1(b))
  }

  /** `NumericQuery.match` on the converted value; Python 2 orders `None`
      below every number, so a missing value fails a lower bound only. */
  predicate NumericMatch(point: Option<int>, rangemin: Option<int>, rangemax: Option<int>, v: Option<int>) {
    if point.Some? then v == point
    else
      !(rangemin.Some? && (v.None? || v.value < rangemin.value)) &&
      !(rangemax.Some? && v.Some? && v.value > rangemax.value)
  }

  /** `q.match(item)`. */
  predicate Matches(q: Query, item: Item, env: Env)
    decreases q
  {
    match q
    case MatchQuery(field, value, _) => value == Get(item, field)
    case SubstringQuery(field, pattern, _) => SubstringMatch(pattern, env.asString(Get(item, field)))
    case RegexpQuery(field, pattern, _) => RegexpMatch(env, pattern, env.asString(Get(item, field)))
    case NumericQuery(field, _, _, point, rangemin, rangemax) =>
      NumericMatch(point, rangemin, rangemax, NumericValue(Get(item, field)))
    case DateQuery(field, _, _, iv) => IntervalContains(iv, env.utcDate(Get(item, field)))
    case AnyFieldQuery(_, _, _, subs) => exists i :: 0 <= i < |subs| && Matches(subs[i], item, env)
    case AndQuery(subs) => forall i :: 0 <= i < |subs| ==> Matches(subs[i], item, env)
    case OrQuery(subs) => exists i :: 0 <= i < |subs| && Matches(subs[i], item, env)
    case TrueQuery => true
    case FalseQuery => false
  }

  /** `AnyFieldQuery.match` as written: the loop returns at the first match. */
  method AnyFieldMatch(q: Query, item: Item, env: Env) returns (found: bool)
    requires q.AnyFieldQuery?
    ensures found <==> exists i :: 0 <= i < |q.subqueries| && Matches(q.subqueries[i], item, env)
    ensures found == Matches(q, item, env)
  {
    var subs := q.subqueries;
    for i := 0 to |subs|
      invariant forall j :: 0 <= j < i ==> !Matches(subs[j], item, env)
    {
      if Matches(subs[i], item, env) {
        return true;
      }
    }
    return false;
  }

  // ---------------------------------------------------------------- building

  /** The pattern `BooleanQuery` is given. */
  datatype BoolPattern = BoolValue(b: bool) | IntValue(n: int) | TextValue(t: string)

  /** `BooleanQuery(field, pattern, fast)`: text goes through `str2bool`, then
      the pattern is stored as `int(pattern)`. */
  function NewBooleanQuery(field: string, pattern: BoolPattern, str2bool: string -> bool, fast: bool): (q: Query)
    ensures q.MatchQuery? && q.field == field && q.fast == fast && q.value.Int?
    ensures pattern.IntValue? ==> q.value == Int(pattern.n)
    ensures pattern.BoolValue? || pattern.TextValue? ==> q.value == Int(0) || q.value == Int(1)
    ensures pattern.BoolValue? ==> (q.value == Int(1) <==> pattern.b)
    ensures pattern.TextValue? ==> (q.value == Int(1) <==> str2bool(pattern.t))
  {
    var n := match pattern
      case BoolValue(b) => if b then 1 else 0
      case IntValue(n) => n
      case TextValue(t) => if str2bool(t) then 1 else 0;
    MatchQuery(field, Int(n), fast)
  }

  /** `BytesQuery(field, pattern)`: matched and bound as raw bytes. */
  function NewBytesQuery(field: string, pattern: seq<byte>): (q: Query)
    ensures q.MatchQuery? && q.field == field && q.fast && q.value == Bytes(pattern)
  {
    MatchQuery(field, Bytes(pattern), true)
  }

  /** `NumericQuery(field, pattern, fast)`: no `..` gives a point, otherwise
      the text before and after the first `..` are the bounds. */
  function NewNumericQuery(field: string, pattern: string, fast: bool): (q: Query)
    ensures q.NumericQuery? && q.field == field && q.pattern == pattern && q.fast == fast
    ensures !Contains(pattern, "..") ==> q.point == ParseInt(pattern) && q.rangemin.None? && q.rangemax.None?
    ensures Contains(pattern, "..") ==>
      q.point.None? && q.rangemin == ParseInt(SplitOnce(pattern, "..")[0]) &&
      q.rangemax == ParseInt(SplitOnce(pattern, "..")[1])
  {
    var parts := SplitOnce(pattern, "..");
    if |parts| == 1 then NumericQuery(field, pattern, fast, ParseInt(parts[0]), None, None)
    else NumericQuery(field, pattern, fast, None, ParseInt(parts[0]), ParseInt(parts[1]))
  }

  /** Both endpoints of an interval are representable dates. */
  predicate ValidInterval(iv: DateInterval) {
    (iv.start.Some? ==> Valid(iv.start.value)) && (iv.end.Some? ==> Valid(iv.end.value)) &&
    Ordered(iv.start, iv.end)
  }

  /** `DateQuery(field, pattern, fast)`: parse the periods, then build the
      interval; either step may raise. */
  function NewDateQuery(field: string, pattern: string, fast: bool): (r: Result<Query>)
    ensures r.Ok? ==> r.value.DateQuery? && r.value.field == field && r.value.pattern == pattern &&
                      r.value.fast == fast && ValidInterval(r.value.interval)
    ensures r.Err? ==> r.error == DateFormatError || r.error == DateParseError ||
                       r.error == DateRangeError || r.error == IntervalError
    ensures r.Ok? <==> ParsePeriods(pattern).Ok? &&
                       FromPeriods(ParsePeriods(pattern).value.0, ParsePeriods(pattern).value.1).Ok?
    ensures r.Ok? ==> r.value.interval == FromPeriods(ParsePeriods(pattern).value.0, ParsePeriods(pattern).value.1).value
    ensures ParsePeriods(pattern).Err? ==> r == Err(ParsePeriods(pattern).error)
    ensures ParsePeriods(pattern).Ok? && r.Err? ==>
      r.error == FromPeriods(ParsePeriods(pattern).value.0, ParsePeriods(pattern).value.1).error
  {
    match ParsePeriods(pattern)
    case Err(e) => Err(e)
    case Ok(ends) =>
      match FromPeriods(ends.0, ends.1)
      case Err(e) => Err(e)
      case Ok(iv) => Ok(DateQuery(field, pattern, fast, iv))
  }

  /** `cls(field, pattern, fast)` for the class `kind` names. */
  function NewLeaf(kind: LeafKind, field: string, pattern: string, fast: bool): (r: Result<Query>)
    ensures r.Ok? ==> IsLeaf(r.value) && r.value.field == field && r.value.fast == fast
    ensures kind != DateKind ==> r.Ok?
    ensures kind == MatchKind ==> r.value == MatchQuery(field, Str(pattern), fast)
    ensures kind == SubstringKind ==> r.value == SubstringQuery(field, pattern, fast)
    ensures kind == RegexpKind ==> r.value == RegexpQuery(field, pattern, fast)
    ensures kind == NumericKind ==> r.value == NewNumericQuery(field, pattern, fast)
    ensures kind == DateKind ==> r == NewDateQuery(field, pattern, fast)
  {
    match kind
    case MatchKind => Ok(MatchQuery(field, Str(pattern), fast))
    case SubstringKind => Ok(SubstringQuery(field, pattern, fast))
    case RegexpKind => Ok(RegexpQuery(field, pattern, fast))
    case NumericKind => Ok(NewNumericQuery(field, pattern, fast))
    case DateKind => NewDateQuery(field, pattern, fast)
  }

  /** `AnyFieldQuery(pattern, fields, cls)`: one fast leaf per field, in field
      order; the first leaf that raises aborts the construction. */
  method NewAnyFieldQuery(pattern: string, fields: seq<string>, kind: LeafKind) returns (r: Result<Query>)
    ensures r.Ok? <==> forall i :: 0 <= i < |fields| ==> NewLeaf(kind, fields[i], pattern, true).Ok?
    ensures r.Ok? ==> r.value.AnyFieldQuery? && r.value.pattern == pattern && r.value.fields == fields &&
                      r.value.kind == kind && |r.value.subqueries| == |fields|
    ensures r.Ok? ==> forall i :: 0 <= i < |fields| ==>
                        NewLeaf(kind, fields[i], pattern, true) == Ok(r.value.subqueries[i])
    ensures r.Err? ==> exists i :: 0 <= i < |fields| && NewLeaf(kind, fields[i], pattern, true) == Err(r.error) &&
                        forall j :: 0 <= j < i ==> NewLeaf(kind, fields[j], pattern, true).Ok?
  {
    var subqueries: seq<Query> := [];
    for i := 0 to |fields|
      invariant |subqueries| == i
      invariant forall j :: 0 <= j < i ==> NewLeaf(kind, fields[j], pattern, true) == Ok(subqueries[j])
    {
      var leaf := NewLeaf(kind, fields[i], pattern, true);
      if leaf.Err? {
        assert forall j :: 0 <= j < i ==> NewLeaf(kind, fields[j], pattern, true).Ok?;
        return Err(leaf.error);
      }
      subqueries := subqueries + [leaf.value];
      assert subqueries[i] == leaf.value;
    }
    return Ok(AnyFieldQuery(pattern, fields, kind, subqueries));
  }
}
