/** What the two meanings of a query promise, and where they part: compiled
    clauses carry one parameter per placeholder, refusals travel up the tree,
    and a store that evaluates the emitted comparisons selects exactly the
    records `match` accepts, except where the source's own choices differ. */
module QueryLaws {
  import opened Base
  import opened Text
  import opened Calendar
  import opened Periods
  import opened Queries
  import Like

  // ------------------------------------------------------- slow paths

  /** A slow leaf, and a regular expression leaf at any speed, refuses. */
  lemma SlowLeafRefuses(q: Query, utcOffset: int)
    requires IsLeaf(q) && (!q.fast || q.RegexpQuery?)
    ensures Clause(q, utcOffset) == Refused
  {
  }

  /** One refusing (or empty) child makes a whole collection refuse: there is
      no partial push-down. */
  lemma RefusalPropagates(q: Query, i: int, utcOffset: int)
    requires q.AndQuery? || q.OrQuery? || q.AnyFieldQuery?
    requires 0 <= i < |q.subqueries| && Falsy(Clause(q.subqueries[i], utcOffset))
    ensures Clause(q, utcOffset) == Refused
  {
    assert ChildClauses(q.subqueries, utcOffset)[i] == Clause(q.subqueries[i], utcOffset);
  }

  /** A collection compiles exactly when every child compiles to a non-empty
      clause. */
  lemma CollectionCompiles(q: Query, utcOffset: int)
    requires q.AndQuery? || q.OrQuery? || q.AnyFieldQuery?
    ensures Clause(q, utcOffset).text.Some? <==>
            forall i :: 0 <= i < |q.subqueries| ==> !Falsy(Clause(q.subqueries[i], utcOffset))
  {
    var cs := ChildClauses(q.subqueries, utcOffset);
    if exists i :: 0 <= i < |cs| && Falsy(cs[i]) {
      var i :| 0 <= i < |cs| && Falsy(cs[i]);
      assert Falsy(Clause(q.subqueries[i], utcOffset));
    }
  }

  /** Empty collections: both compile to `''`, `AndQuery` matches every record
      and `OrQuery` none, and an empty collection inside another one makes the
      outer one refuse. */
  lemma EmptyCollections(item: Item, env: Env, utcOffset: int)
    ensures Clause(AndQuery([]), utcOffset) == Fragment(Some(""), [])
    ensures Clause(OrQuery([]), utcOffset) == Fragment(Some(""), [])
    ensures Matches(AndQuery([]), item, env) && !Matches(OrQuery([]), item, env)
    ensures Clause(AndQuery([OrQuery([]), TrueQuery]), utcOffset) == Refused
  {
    RefusalPropagates(AndQuery([OrQuery([]), TrueQuery]), 0, utcOffset);
  }

  /** A clause without text is exactly `(None, ())`: a refusal binds no values. */
  lemma RefusalBindsNothing(q: Query, utcOffset: int)
    ensures Clause(q, utcOffset).text.None? ==> Clause(q, utcOffset) == Refused
  {
  }

  /** `TrueQuery` compiles to `1` and `FalseQuery` to `0`, with no values;
      the store selects every record by the first and none by the second,
      as their `match` does. */
  lemma ConstantQueries(field: string, v: int, item: Item, env: Env, utcOffset: int)
    ensures Clause(TrueQuery, utcOffset) == Fragment(Some("1"), []) && Clause(FalseQuery, utcOffset) == Fragment(Some("0"), [])
    ensures StoreSelects(Clause(TrueQuery, utcOffset), field, v) && Matches(TrueQuery, item, env)
    ensures !StoreSelects(Clause(FalseQuery, utcOffset), field, v) && !Matches(FalseQuery, item, env)
  {
  }

  /** A fast leaf compiles to its own `col_clause`: an exact match binds the
      pattern, a substring search binds the pattern with every LIKE
      metacharacter escaped between two `%`, a regular expression refuses. */
  lemma FastLeafClauses(q: Query, utcOffset: int)
    requires IsLeaf(q) && q.fast
    ensures q.MatchQuery? ==> Clause(q, utcOffset) == Fragment(Some(q.field + " = ?"), [q.value])
    ensures q.SubstringQuery? ==>
      Clause(q, utcOffset) == Fragment(Some(q.field + " like ? escape '\\'"), [Str("%" + Like.EscapeEach(q.pattern) + "%")])
    ensures q.RegexpQuery? ==> Clause(q, utcOffset) == Refused
    ensures q.NumericQuery? ==> Clause(q, utcOffset) == NumericColClause(q.field, q.point, q.rangemin, q.rangemax)
    ensures q.DateQuery? ==> Clause(q, utcOffset) == DateColClause(q.field, q.interval, utcOffset)
  {
    if q.SubstringQuery? {
      SubstringClause(q.field, q.pattern, utcOffset);
    }
  }

  /** `clause_with_joiner` on no, one and two children: `''`, the child in
      parentheses, and the two parenthesized children around the padded
      joiner with their values in order; `''` counts as a refusal. */
  lemma JoinClausesShapes(a: Fragment, b: Fragment, joiner: string)
    requires !Falsy(a) && !Falsy(b)
    ensures JoinClauses([], joiner) == Fragment(Some(""), [])
    ensures JoinClauses([a], joiner) == Fragment(Some("(" + a.text.value + ")"), a.subvals)
    ensures JoinClauses([a, b], joiner) ==
            Fragment(Some("(" + a.text.value + ") " + joiner + " (" + b.text.value + ")"), a.subvals + b.subvals)
    ensures JoinClauses([a, Fragment(Some(""), b.subvals)], joiner) == Refused
  {
    var sep := " " + joiner + " ";
    var pa, pb := "(" + a.text.value + ")", "(" + b.text.value + ")";
    assert Parenthesized([]) == [];
    assert Join(sep, []) == "";
    assert Parenthesized([a]) == [pa];
    assert Subvals([a]) == a.subvals by {
      assert [a][..0] == [];
    }
    assert Parenthesized([a, b]) == [pa, pb];
    assert [a, b][..1] == [a];
    assert Subvals([a, b]) == a.subvals + b.subvals;
    assert [pa, pb][..1] == [pa];
    assert Join(sep, [pa, pb]) == pa + sep + pb;
    assert pa + sep + pb == "(" + a.text.value + ") " + joiner + " (" + b.text.value + ")";
    assert Falsy([a, Fragment(Some(""), b.subvals)][1]);
  }

  /** A conjunction over `a + b` is the conjunction of the two halves; a
      conjunction of one child tests that child. */
  lemma AndMatchSplit(a: seq<Query>, b: seq<Query>, q: Query, item: Item, env: Env)
    ensures Matches(AndQuery(a + b), item, env) <==> Matches(AndQuery(a), item, env) && Matches(AndQuery(b), item, env)
    ensures Matches(AndQuery([q]), item, env) <==> Matches(q, item, env)
  {
    var ab := a + b;
    if Matches(AndQuery(ab), item, env) {
      forall i | 0 <= i < |a|
        ensures Matches(a[i], item, env)
      {
        assert ab[i] == a[i];
      }
      forall j | 0 <= j < |b|
        ensures Matches(b[j], item, env)
      {
        assert ab[|a| + j] == b[j];
      }
    }
    if Matches(AndQuery(a), item, env) && Matches(AndQuery(b), item, env) {
      forall i | 0 <= i < |ab|
        ensures Matches(ab[i], item, env)
      {
        if i < |a| {
          assert ab[i] == a[i];
        } else {
          assert ab[i] == b[i - |a|];
        }
      }
    }
    assert [q][0] == q;
  }

  /** A disjunction over `a + b` is the disjunction of the two halves; a
      disjunction of one child tests that child. */
  lemma OrMatchSplit(a: seq<Query>, b: seq<Query>, q: Query, item: Item, env: Env)
    ensures Matches(OrQuery(a + b), item, env) <==> Matches(OrQuery(a), item, env) || Matches(OrQuery(b), item, env)
    ensures Matches(OrQuery([q]), item, env) <==> Matches(q, item, env)
  {
    var ab := a + b;
    if Matches(OrQuery(ab), item, env) {
      var i :| 0 <= i < |ab| && Matches(ab[i], item, env);
      if i < |a| {
        assert ab[i] == a[i];
      } else {
        assert ab[i] == b[i - |a|];
      }
    }
    if Matches(OrQuery(a), item, env) {
      var i :| 0 <= i < |a| && Matches(a[i], item, env);
      assert ab[i] == a[i];
    }
    if Matches(OrQuery(b), item, env) {
      var j :| 0 <= j < |b| && Matches(b[j], item, env);
      assert ab[|a| + j] == b[j];
    }
    assert [q][0] == q;
  }

  // ------------------------------------------------------- parameter count

  function QCount(s: string): nat {
    multiset(s)['?']
  }

  /** No field name of the tree contains a `?`. */
  predicate PlainFields(q: Query)
    decreases q
  {
    match q
    case AnyFieldQuery(_, _, _, subs) => forall i :: 0 <= i < |subs| ==> PlainFields(subs[i])
    case AndQuery(subs) => forall i :: 0 <= i < |subs| ==> PlainFields(subs[i])
    case OrQuery(subs) => forall i :: 0 <= i < |subs| ==> PlainFields(subs[i])
    case TrueQuery => true
    case FalseQuery => true
    case _ => '?' !in q.field
  }

  function SumQ(xs: seq<string>): nat {
    if |xs| == 0 then 0 else SumQ(xs[..|xs| - 1]) + QCount(xs[|xs| - 1])
  }

  lemma {:induction false} JoinCount(sep: string, xs: seq<string>)
    requires '?' !in sep
    ensures QCount(Join(sep, xs)) == SumQ(xs)
  {
    if |xs| > 1 {
      var n := |xs| - 1;
      JoinCount(sep, xs[..n]);
      assert SumQ(xs[..n]) == SumQ(xs[..n][..n - 1]) + QCount(xs[n - 1]) by {
        assert xs[..n][..n - 1] == xs[..n - 1];
      }
      assert multiset(Join(sep, xs[..n]) + sep + xs[n]) == multiset(Join(sep, xs[..n])) + multiset(sep) + multiset(xs[n]);
    } else if |xs| == 1 {
      assert xs[..0] == [];
    }
  }

  lemma {:induction false} ParenthesizedCount(cs: seq<Fragment>)
    requires forall i :: 0 <= i < |cs| ==> QCount(TextOf(cs[i])) == |cs[i].subvals|
    ensures SumQ(Parenthesized(cs)) == |Subvals(cs)|
  {
    if |cs| > 0 {
      var n := |cs| - 1;
      assert Parenthesized(cs)[..n] == Parenthesized(cs[..n]);
      ParenthesizedCount(cs[..n]);
      var t := TextOf(cs[n]);
      assert multiset("(" + t + ")") == multiset("(") + multiset(t) + multiset(")");
    }
  }

  lemma FieldCount(f: string, lit: string)
    requires '?' !in f
    ensures QCount(f + lit) == QCount(lit)
  {
    assert multiset(f + lit) == multiset(f) + multiset(lit);
  }

  lemma NumericPlaceholders(f: string, point: Option<int>, rangemin: Option<int>, rangemax: Option<int>)
    requires '?' !in f
    ensures var c := NumericColClause(f, point, rangemin, rangemax); QCount(c.text.value) == |c.subvals|
  {
    if point.Some? {
      assert f + "=?" == f + "=" + "?";
      CompareCount(f, "=");
    } else if rangemin.Some? && rangemax.Some? {
      assert f + " >= ? AND " + f + " <= ?" == f + " >= " + "?" + " AND " + f + " <= " + "?";
      RangeCount(f, " >= ", " <= ");
    } else if rangemin.Some? {
      assert f + " >= ?" == f + " >= " + "?";
      CompareCount(f, " >= ");
    } else if rangemax.Some? {
      assert f + " <= ?" == f + " <= " + "?";
      CompareCount(f, " <= ");
    } else {
      NoPlaceholder("1");
    }
  }

  lemma DatePlaceholders(f: string, iv: DateInterval, utcOffset: int)
    requires '?' !in f
    ensures var c := DateColClause(f, iv, utcOffset); QCount(c.text.value) == |c.subvals|
  {
    if iv.start.Some? && iv.end.Some? {
      assert f + " >= ? AND " + f + " < ?" == f + " >= " + "?" + " AND " + f + " < " + "?";
      RangeCount(f, " >= ", " < ");
    } else if iv.start.Some? {
      assert f + " >= ?" == f + " >= " + "?";
      CompareCount(f, " >= ");
    } else if iv.end.Some? {
      assert f + " < ?" == f + " < " + "?";
      CompareCount(f, " < ");
    } else {
      NoPlaceholder("1");
    }
  }

  /** `field op ?` holds one placeholder. */
  lemma CompareCount(f: string, op: string)
    requires '?' !in f && '?' !in op
    ensures QCount(f + op + "?") == 1
  {
    assert f + op + "?" == f + op + "?" + "";
    OnePlaceholder(f + op, "");
  }

  /** `field lo ? AND field hi ?` holds two. */
  lemma RangeCount(f: string, lo: string, hi: string)
    requires '?' !in f && '?' !in lo && '?' !in hi
    ensures QCount(f + lo + "?" + " AND " + f + hi + "?") == 2
  {
    var x, y := f + lo + "?", " AND " + f + hi + "?";
    CompareCount(f, lo);
    CompareCount(" AND " + f, hi);
    assert f + lo + "?" + " AND " + f + hi + "?" == x + y;
    assert multiset(x + y) == multiset(x) + multiset(y);
  }

  lemma LeafPlaceholders(q: Query, utcOffset: int)
    requires IsLeaf(q) && '?' !in q.field
    ensures var c := ColClause(q, utcOffset); c.text.Some? ==> QCount(c.text.value) == |c.subvals|
  {
    match q
    case MatchQuery(f, v, _) => MatchPlaceholders(f, v);
    case SubstringQuery(f, p, _) => SubstringPlaceholders(f, p);
    case RegexpQuery(_, _, _) =>
    case NumericQuery(f, _, _, point, rangemin, rangemax) => NumericPlaceholders(f, point, rangemin, rangemax);
    case DateQuery(f, _, _, iv) => DatePlaceholders(f, iv, utcOffset);
  }

  lemma MatchPlaceholders(f: string, v: Value)
    requires '?' !in f
    ensures QCount(f + " = ?") == 1
  {
    assert f + " = ?" == f + " = " + "?";
    CompareCount(f, " = ");
  }

  lemma SubstringPlaceholders(f: string, p: string)
    requires '?' !in f
    ensures QCount(f + " like ? escape '\\'") == 1
  {
    FieldCount(f, " like ? escape '\\'");
    LikeTextCount();
  }

  lemma LikeTextCount()
    ensures QCount(" like ? escape '\\'") == 1
  {
    var a, b := " like ", " escape '\\'";
    assert " like ? escape '\\'" == a + "?" + b;
    OnePlaceholder(a, b);
  }

  lemma OnePlaceholder(a: string, b: string)
    requires '?' !in a && '?' !in b
    ensures QCount(a + "?" + b) == 1
  {
    NoPlaceholder(a);
    NoPlaceholder(b);
    assert multiset(a + "?" + b) == multiset(a) + multiset("?") + multiset(b);
  }

  lemma NoPlaceholder(s: string)
    requires '?' !in s
    ensures QCount(s) == 0
  {
    assert '?' !in multiset(s);
  }

  /** Every compiled clause has exactly as many `?` placeholders as bound
      parameters, so positional binding lines up. */
  lemma {:induction false} Placeholders(q: Query, utcOffset: int)
    requires PlainFields(q)
    ensures Clause(q, utcOffset).text.Some? ==>
            QCount(Clause(q, utcOffset).text.value) == |Clause(q, utcOffset).subvals|
    decreases q
  {
    match q
    case AnyFieldQuery(_, _, _, subs) => ChildrenPlaceholders(subs, "or", utcOffset);
    case AndQuery(subs) => ChildrenPlaceholders(subs, "and", utcOffset);
    case OrQuery(subs) => ChildrenPlaceholders(subs, "or", utcOffset);
    case TrueQuery =>
    case FalseQuery =>
    case _ => LeafPlaceholders(q, utcOffset);
  }

  lemma {:induction false} ChildrenPlaceholders(subs: seq<Query>, joiner: string, utcOffset: int)
    requires '?' !in joiner
    requires forall i :: 0 <= i < |subs| ==> PlainFields(subs[i])
    ensures var c := JoinClauses(ChildClauses(subs, utcOffset), joiner);
      c.text.Some? ==> QCount(c.text.value) == |c.subvals|
    decreases subs
  {
    var cs := ChildClauses(subs, utcOffset);
    if !exists i :: 0 <= i < |cs| && Falsy(cs[i]) {
      forall i | 0 <= i < |cs|
        ensures QCount(TextOf(cs[i])) == |cs[i].subvals|
      {
        Placeholders(subs[i], utcOffset);
      }
      JoinedCount(cs, joiner);
    }
  }

  /** Joining clauses that are all truthy and each count right counts right. */
  lemma JoinedCount(cs: seq<Fragment>, joiner: string)
    requires '?' !in joiner
    requires forall i :: 0 <= i < |cs| ==> !Falsy(cs[i]) && QCount(TextOf(cs[i])) == |cs[i].subvals|
    ensures var c := JoinClauses(cs, joiner); c.text.Some? && QCount(c.text.value) == |c.subvals|
  {
    ParenthesizedCount(cs);
    JoinCount(" " + joiner + " ", Parenthesized(cs));
  }

  // ------------------------------------------------------- substring

  lemma {:induction false} ReplaceConcat(a: string, b: string, c: char, repl: string)
    ensures ReplaceChar(a + b, c, repl) == ReplaceChar(a, c, repl) + ReplaceChar(b, c, repl)
  {
    if |a| == 0 {
      assert a + b == b;
    } else {
      assert (a + b)[1..] == a[1..] + b;
      ReplaceConcat(a[1..], b, c, repl);
    }
  }

  /** The three chained replacements escape each character on its own: the
      backslashes added for `%` and `_` are not doubled again. */
  lemma {:induction false} EscapeLikeIsEscapeEach(p: string)
    ensures EscapeLike(p) == Like.EscapeEach(p)
  {
    if |p| > 0 {
      var h, t := [p[0]], p[1..];
      assert p == h + t;
      var h1, t1 := ReplaceChar(h, '\\', "\\\\"), ReplaceChar(t, '\\', "\\\\");
      var h2, t2 := ReplaceChar(h1, '%', "\\%"), ReplaceChar(t1, '%', "\\%");
      ReplaceConcat(h, t, '\\', "\\\\");
      ReplaceConcat(h1, t1, '%', "\\%");
      ReplaceConcat(h2, t2, '_', "\\_");
      EscapeLikeIsEscapeEach(t);
      assert h[1..] == [];
      assert ReplaceChar(h2, '_', "\\_") == Like.EscapeChar(p[0]) by {
        if p[0] == '\\' {
          assert h1 == "\\\\";
          assert h1[1..][1..] == [];
        } else if p[0] == '%' {
          assert h2 == "\\%";
          assert h2[1..][1..] == [];
        } else if p[0] == '_' {
          assert h2 == h;
        } else {
          assert h2 == h;
        }
      }
    }
  }

  /** A fast substring leaf binds one LIKE pattern, `%escaped%`. */
  lemma SubstringClause(field: string, pattern: string, utcOffset: int)
    ensures Clause(SubstringQuery(field, pattern, true), utcOffset) ==
            Fragment(Some(field + " like ? escape '\\'"), [Str(SubstringSearch(pattern))])
    ensures SubstringSearch(pattern) == "%" + Like.EscapeEach(pattern) + "%"
  {
    EscapeLikeIsEscapeEach(pattern);
  }

  /** `pattern.lower() in value.lower()`: the empty pattern matches every
      value, a pattern occurring verbatim matches, and lowering either side
      first changes nothing. */
  lemma SubstringMatchLaws(pattern: string, value: string)
    ensures SubstringMatch("", value)
    ensures Contains(value, pattern) ==> SubstringMatch(pattern, value)
    ensures SubstringMatch(LowerStr(pattern), value) == SubstringMatch(pattern, value)
    ensures SubstringMatch(pattern, LowerStr(value)) == SubstringMatch(pattern, value)
  {
    assert OccursAt(LowerStr(""), LowerStr(value), 0);
    if Contains(value, pattern) {
      var k: nat :| k <= |value| && OccursAt(pattern, value, k);
      assert LowerStr(value)[k..k + |pattern|] == LowerStr(pattern) by {
        assert forall i :: 0 <= i < |pattern| ==> value[k + i] == pattern[i];
      }
      assert OccursAt(LowerStr(pattern), LowerStr(value), k);
    }
    LowerIdempotent(pattern);
    LowerIdempotent(value);
  }

  /** A regular-expression leaf never compiles, fast or not, and matches
      exactly when the search finds the pattern; an invalid pattern matches
      nothing. */
  lemma RegexpLeaf(field: string, pattern: string, fast: bool, item: Item, env: Env, utcOffset: int)
    ensures Clause(RegexpQuery(field, pattern, fast), utcOffset) == Refused
    ensures Matches(RegexpQuery(field, pattern, fast), item, env) <==>
            env.search(pattern, env.asString(Get(item, field))) == Some(true)
  {
  }

  /** On ASCII text Python's `lower` and the store's folding coincide. */
  lemma AsciiLowerAgrees(s: string)
    requires IsAscii(s)
    ensures LowerStr(s) == Like.AsciiLowerStr(s)
  {
    assert forall i :: 0 <= i < |s| ==> LowerStr(s)[i] == Like.AsciiLowerStr(s)[i];
  }

  /** On an ASCII pattern and an ASCII value, the store's LIKE test of the
      bound pattern agrees with `string_match`. */
  lemma SubstringAgrees(field: string, pattern: string, item: Item, env: Env)
    requires IsAscii(pattern) && IsAscii(env.asString(Get(item, field)))
    ensures Like.LikeMatch(SubstringSearch(pattern), env.asString(Get(item, field))) <==>
            Matches(SubstringQuery(field, pattern, true), item, env)
  {
    var value := env.asString(Get(item, field));
    SubstringClause(field, pattern, 0);
    Like.LikeSubstring(pattern, value);
    AsciiLowerAgrees(pattern);
    AsciiLowerAgrees(value);
  }

  /** Beyond ASCII they part: `string_match` folds `\u00C9` to `\u00E9`, the
      store's LIKE does not, so the in-memory test keeps a record the
      compiled clause drops. */
  lemma SubstringDisagreement(field: string, item: Item, env: Env)
    requires env.asString(Get(item, field)) == "\U{00E9}"
    ensures Matches(SubstringQuery(field, "\U{00C9}", true), item, env)
    ensures !Like.LikeMatch(SubstringSearch("\U{00C9}"), env.asString(Get(item, field)))
  {
    var value := env.asString(Get(item, field));
    assert LowerStr("\U{00C9}") == value;
    assert OccursAt(LowerStr("\U{00C9}"), LowerStr(value), 0);
    SubstringClause(field, "\U{00C9}", 0);
    Like.LikeSubstring("\U{00C9}", value);
    assert Like.AsciiLowerStr("\U{00C9}") == "\U{00C9}";
    assert Like.AsciiLowerStr(value) == value;
    assert !OccursAt("\U{00C9}", value, 0);
  }

  // ------------------------------------------------------- booleans and bytes

  /** The boolean and bytes leaves compile and match against the same
      normalized value. */
  lemma PatternLeavesAgree(field: string, pattern: BoolPattern, str2bool: string -> bool, bytes: seq<byte>,
                           item: Item, env: Env, utcOffset: int)
    ensures var q := NewBooleanQuery(field, pattern, str2bool, true);
      Clause(q, utcOffset) == Fragment(Some(field + " = ?"), [q.value]) &&
      (Matches(q, item, env) <==> Get(item, field) == q.value)
    ensures var q := NewBytesQuery(field, bytes);
      Clause(q, utcOffset) == Fragment(Some(field + " = ?"), [Bytes(bytes)]) &&
      (Matches(q, item, env) <==> Get(item, field) == Bytes(bytes))
  {
  }

  // ------------------------------------------------------- numbers

  /** How the store evaluates the comparison clauses numeric and date leaves
      emit, on a record whose `field` holds the integer `v`. */
  predicate StoreSelects(c: Fragment, field: string, v: int) {
    c.text.Some? &&
    var t := c.text.value;
    var p := c.subvals;
    if t == "1" then true
    else if t == "0" then false
    else if |p| == 1 && p[0].Int? then
      (t == field + "=?" && v == p[0].i) ||
      (t == field + " >= ?" && p[0].i <= v) ||
      (t == field + " <= ?" && v <= p[0].i) ||
      (t == field + " < ?" && v < p[0].i)
    else if |p| == 2 && p[0].Int? && p[1].Int? then
      (t == field + " >= ? AND " + field + " <= ?" && p[0].i <= v <= p[1].i) ||
      (t == field + " >= ? AND " + field + " < ?" && p[0].i <= v < p[1].i)
    else false
  }

  lemma DistinctComparisons(field: string)
    ensures field + " >= ?" != field + " <= ?"
    ensures field + " >= ? AND " + field + " <= ?" != field + " >= ? AND " + field + " < ?"
  {
    assert (field + " >= ?")[|field| + 1] == '>';
    assert (field + " <= ?")[|field| + 1] == '<';
    assert |field + " >= ? AND " + field + " <= ?"| != |field + " >= ? AND " + field + " < ?"|;
  }

  /** For an integer value, the store selects a record by a fast numeric
      leaf's clause exactly when the leaf matches it. */
  lemma NumericAgrees(q: Query, v: int, env: Env, utcOffset: int)
    requires q.NumericQuery? && q.fast
    ensures StoreSelects(Clause(q, utcOffset), q.field, v) <==> Matches(q, map[q.field := Int(v)], env)
  {
    DistinctComparisons(q.field);
    assert Get(map[q.field := Int(v)], q.field) == Int(v);
  }

  /** `NumericQuery.match` converts a text field first: the text of `n`
      matches exactly as `n` does, and text that is not an integer matches
      exactly as a missing value does. */
  lemma NumericTextValue(q: Query, n: int, s: string, env: Env)
    requires q.NumericQuery?
    ensures NumericValue(Str(IntToString(n))) == Some(n)
    ensures Matches(q, map[q.field := Str(IntToString(n))], env) <==> Matches(q, map[q.field := Int(n)], env)
    ensures ParseInt(s).None? ==> (Matches(q, map[q.field := Str(s)], env) <==> Matches(q, map[], env))
  {
    ParseIntRoundTrip(n);
    assert Get(map[q.field := Str(IntToString(n))], q.field) == Str(IntToString(n));
    assert Get(map[q.field := Int(n)], q.field) == Int(n);
    assert Get(map[q.field := Str(s)], q.field) == Str(s);
  }

  /** A missing value fails a lower bound and passes an upper one (Python 2
      orders `None` before every number). */
  lemma MissingNumericValue(field: string, pattern: string, n: int, env: Env)
    ensures !Matches(NumericQuery(field, pattern, true, None, Some(n), None), map[], env)
    ensures Matches(NumericQuery(field, pattern, true, None, None, Some(n)), map[], env)
    ensures !Matches(NumericQuery(field, pattern, true, Some(n), None, None), map[], env)
  {
  }

  lemma IntToStringNoDot(n: int)
    ensures '.' !in IntToString(n)
  {
    var m := if n < 0 then -n else n;
    NatToStringDigits(m);
    var s := NatToString(m);
    assert forall i :: 0 <= i < |s| ==> s[i] != '.';
    assert IntToString(n) == (if n < 0 then "-" else "") + s;
  }

  lemma NoDotNoRange(s: string)
    requires '.' !in s
    ensures !Contains(s, "..")
  {
    forall k: nat | k <= |s|
      ensures !OccursAt("..", s, k)
    {
      if k + 2 <= |s| {
        assert s[k..k + 2][0] == s[k];
        assert s[k] in s;
      }
    }
  }

  lemma SplitAtFirstRange(a: string, b: string)
    requires '.' !in a
    ensures SplitOnce(a + ".." + b, "..") == [a, b]
  {
    var s := a + ".." + b;
    assert s[|a|..|a| + 2] == "..";
    assert OccursAt("..", s, |a|);
    var parts := SplitOnce(s, "..");
    assert |parts| == 2;
    assert forall j :: 0 <= j < |a| ==> s[j] == a[j] && s[j] != '.';
    assert s[|parts[0]|] == '.';
    assert |parts[0]| == |a|;
    assert s[..|a|] == a && parts[0] == s[..|parts[0]|];
    assert parts[1] == s[|a| + 2..] == b;
  }

  /** `NumericQuery` on a rendered integer `n` sets the point `n`. */
  lemma NumericPointPattern(field: string, n: int, fast: bool)
    ensures var q := NewNumericQuery(field, IntToString(n), fast);
      q.point == Some(n) && q.rangemin.None? && q.rangemax.None?
  {
    IntToStringNoDot(n);
    ParseIntRoundTrip(n);
    NoDotNoRange(IntToString(n));
  }

  /** `a..b`, `a..` and `..b` set the bounds present and only those. */
  lemma NumericRangePattern(field: string, lo: Option<int>, hi: Option<int>, fast: bool)
    ensures var q := NewNumericQuery(field, RangeText(lo) + ".." + RangeText(hi), fast);
      q.point.None? && q.rangemin == lo && q.rangemax == hi
  {
    var a, b := RangeText(lo), RangeText(hi);
    if lo.Some? {
      IntToStringNoDot(lo.value);
      ParseIntRoundTrip(lo.value);
    } else {
      assert StripRight(StripLeft(a)) == "";
    }
    if hi.Some? {
      ParseIntRoundTrip(hi.value);
    } else {
      assert StripRight(StripLeft(b)) == "";
    }
    SplitAtFirstRange(a, b);
    assert OccursAt("..", a + ".." + b, |a|);
  }

  /** Over a store holding the years 1990, 2000 and 2010, the leaf for
      `year:1995..2005` keeps only 2000, compiled and in memory alike. */
  lemma YearRangeScenario(env: Env, utcOffset: int)
    ensures var q := NewNumericQuery("year", "1995..2005", true);
      var c := Clause(q, utcOffset);
      !StoreSelects(c, "year", 1990) && StoreSelects(c, "year", 2000) && !StoreSelects(c, "year", 2010) &&
      !Matches(q, map["year" := Int(1990)], env) && Matches(q, map["year" := Int(2000)], env) &&
      !Matches(q, map["year" := Int(2010)], env)
  {
    YearRangeQuery();
    var q := NumericQuery("year", "1995..2005", true, None, Some(1995), Some(2005));
    YearRangeMatches(q, env);
    NumericAgrees(q, 1990, env, utcOffset);
    NumericAgrees(q, 2000, env, utcOffset);
    NumericAgrees(q, 2010, env, utcOffset);
  }

  lemma YearRangeMatches(q: Query, env: Env)
    requires q == NumericQuery("year", "1995..2005", true, None, Some(1995), Some(2005))
    ensures !Matches(q, map["year" := Int(1990)], env) && Matches(q, map["year" := Int(2000)], env) &&
            !Matches(q, map["year" := Int(2010)], env)
  {
    assert Get(map["year" := Int(1990)], "year") == Int(1990);
    assert Get(map["year" := Int(2000)], "year") == Int(2000);
    assert Get(map["year" := Int(2010)], "year") == Int(2010);
  }

  lemma YearRangeQuery()
    ensures NewNumericQuery("year", "1995..2005", true) ==
            NumericQuery("year", "1995..2005", true, None, Some(1995), Some(2005))
  {
    YearTexts();
    NumericRangePattern("year", Some(1995), Some(2005), true);
  }

  lemma YearTexts()
    ensures RangeText(Some(1995)) + ".." + RangeText(Some(2005)) == "1995..2005"
  {
    assert NatToString(1) == "1" && NatToString(19) == "19" && NatToString(199) == "199";
    assert NatToString(1995) == "1995";
    assert NatToString(2) == "2" && NatToString(20) == "20" && NatToString(200) == "200";
    assert NatToString(2005) == "2005";
  }

  /** The text of an optional range bound: the integer, or nothing. */
  function RangeText(n: Option<int>): string {
    match n
    case None => ""
    case Some(v) => IntToString(v)
  }

  // ------------------------------------------------------- dates

  /** With local time equal to UTC, the store selects a record whose timestamp
      `t` falls on day `d` exactly when the date leaf matches it: every
      endpoint is a midnight, so the time of day never decides. */
  lemma DateAgrees(q: Query, d: Date, t: int, env: Env)
    requires q.DateQuery? && q.fast && ValidInterval(q.interval) && Valid(d)
    requires LocalEpochSeconds(d, 0) <= t < LocalEpochSeconds(d, 0) + 86400
    requires env.utcDate(Int(t)) == d
    ensures StoreSelects(Clause(q, 0), q.field, t) <==> Matches(q, map[q.field := Int(t)], env)
  {
    var iv := q.interval;
    assert Get(map[q.field := Int(t)], q.field) == Int(t);
    DistinctComparisons(q.field);
    if iv.start.Some? {
      var a := iv.start.value;
      if Before(d, a) {
        EpochSecondsMonotone(d, a, 0);
      } else if a != d {
        EpochSecondsMonotone(a, d, 0);
      }
    }
    if iv.end.Some? {
      var b := iv.end.value;
      if Before(d, b) {
        EpochSecondsMonotone(d, b, 0);
      } else if b != d {
        EpochSecondsMonotone(b, d, 0);
      }
    }
  }

  /** A compiled interval's bounds are bound in increasing order. */
  lemma DateBoundsIncrease(q: Query, utcOffset: int)
    requires q.DateQuery? && q.fast && ValidInterval(q.interval)
    requires q.interval.start.Some? && q.interval.end.Some?
    ensures var c := Clause(q, utcOffset);
      (|c.subvals| == 2 && c.subvals[0].Int? && c.subvals[1].Int? && c.subvals[0].i + 86400 <= c.subvals[1].i)
  {
    EpochSecondsMonotone(q.interval.start.value, q.interval.end.value, utcOffset);
  }

  /** The text of one aligned period parses to that period at both ends. */
  lemma RenderedPeriods(p: Period)
    requires Valid(p.date) && Aligned(p)
    ensures ParsePeriods(Render(p)) == Ok((Some(p), Some(p)))
  {
    RenderNoDot(p);
    NoDotNoRange(Render(p));
    ParseRenderRoundTrip(p);
  }

  lemma PeriodQueryInterval(field: string, p: Period, fast: bool)
    requires Valid(p.date) && Aligned(p) && OpenRightEndpoint(p).Ok?
    ensures FromPeriods(Some(p), Some(p)).Ok?
    ensures NewDateQuery(field, Render(p), fast) ==
            Ok(DateQuery(field, Render(p), fast, FromPeriods(Some(p), Some(p)).value))
  {
    RenderedPeriods(p);
    assert OpenRightEndpoint(p).Ok?;
    NextDayOrdinal(p.date);
  }

  /** A date leaf built from the text of one aligned period matches exactly
      the records whose day lies in that period. */
  lemma PeriodQuery(field: string, p: Period, fast: bool, item: Item, env: Env)
    requires Valid(p.date) && Aligned(p) && OpenRightEndpoint(p).Ok?
    requires Valid(env.utcDate(Get(item, field)))
    ensures NewDateQuery(field, Render(p), fast).Ok?
    ensures Matches(NewDateQuery(field, Render(p), fast).value, item, env) <==>
            InPeriod(env.utcDate(Get(item, field)), p)
  {
    var d := env.utcDate(Get(item, field));
    SinglePeriodSpan(p, d);
    var q := DateQuery(field, Render(p), fast, FromPeriods(Some(p), Some(p)).value);
    assert Matches(q, item, env) <==> InPeriod(d, p);
    PeriodQueryInterval(field, p, fast);
    assert NewDateQuery(field, Render(p), fast).value == q;
  }

  /** `A..B` parses to the two periods it names, `A..` and `..B` leave the
      other end open. */
  lemma RangeParses(p: Option<Period>, q: Option<Period>)
    requires p.Some? ==> Valid(p.value.date) && Aligned(p.value)
    requires q.Some? ==> Valid(q.value.date) && Aligned(q.value)
    ensures ParsePeriods(RenderOpt(p) + ".." + RenderOpt(q)) == Ok((p, q))
  {
    var a, b := RenderOpt(p), RenderOpt(q);
    if p.Some? {
      RenderNoDot(p.value);
      ParseRenderRoundTrip(p.value);
    }
    if q.Some? {
      ParseRenderRoundTrip(q.value);
    }
    assert ParsePeriod(a) == Ok(p) && ParsePeriod(b) == Ok(q);
    SplitAtFirstRange(a, b);
    OccursAfter(a, "..", b, a + ".." + b);
    assert Contains(a + ".." + b, "..");
  }

  /** The text of an optional period: empty for an open end. */
  function RenderOpt(p: Option<Period>): (r: string)
    requires p.Some? ==> Valid(p.value.date)
    ensures p.None? <==> r == ""
  {
    match p
    case None => ""
    case Some(x) => Render(x)
  }

  /** The date leaf on `A..B` (either end possibly open) is built from the
      interval of the two periods, and raises exactly when that interval does. */
  lemma RangeQuery(field: string, p: Option<Period>, q: Option<Period>, fast: bool)
    requires p.Some? ==> Valid(p.value.date) && Aligned(p.value)
    requires q.Some? ==> Valid(q.value.date) && Aligned(q.value)
    ensures var r := NewDateQuery(field, RenderOpt(p) + ".." + RenderOpt(q), fast);
      (r.Ok? <==> FromPeriods(p, q).Ok?) &&
      (r.Ok? ==> r.value == DateQuery(field, RenderOpt(p) + ".." + RenderOpt(q), fast, FromPeriods(p, q).value))
  {
    RangeParses(p, q);
  }

  /** A date leaf tests whether the record's UTC day lies in its interval. */
  lemma DateLeafMatches(field: string, pattern: string, fast: bool, iv: DateInterval, item: Item, env: Env)
    ensures Matches(DateQuery(field, pattern, fast, iv), item, env) <==>
            IntervalContains(iv, env.utcDate(Get(item, field)))
  {
  }

  /** A date leaf on `A..B` exists exactly when `A` starts no later than
      the end of `B`, and then matches the records from the start of `A` up
      to the end of `B`. */
  lemma TwoPeriodQuery(field: string, p: Period, q: Period, fast: bool, item: Item, env: Env)
    requires Valid(p.date) && Aligned(p) && Valid(q.date) && Aligned(q) && OpenRightEndpoint(q).Ok?
    requires Valid(env.utcDate(Get(item, field)))
    ensures var r := NewDateQuery(field, Render(p) + ".." + Render(q), fast);
      (r.Ok? <==> Before(p.date, q.date) || InPeriod(p.date, q)) &&
      (r.Ok? ==> (Matches(r.value, item, env) <==>
                  var d := env.utcDate(Get(item, field));
                  !Before(d, p.date) && (Before(d, q.date) || InPeriod(d, q))))
  {
    var text := Render(p) + ".." + Render(q);
    var d := env.utcDate(Get(item, field));
    RangeQuery(field, Some(p), Some(q), fast);
    BeforeEndOfPeriod(q, p.date);
    BeforeEndOfPeriod(q, d);
    var e := OpenRightEndpoint(q).value;
    var iv := DateInterval(Some(p.date), Some(e));
    if Before(p.date, e) {
      assert FromPeriods(Some(p), Some(q)) == Ok(iv);
      DateLeafMatches(field, text, fast, iv, item, env);
    }
  }

  /** `A..` matches every record from the start of `A` on. */
  lemma FromPeriodQuery(field: string, p: Period, fast: bool, item: Item, env: Env)
    requires Valid(p.date) && Aligned(p)
    ensures var r := NewDateQuery(field, Render(p) + "..", fast);
      r.Ok? && (Matches(r.value, item, env) <==> !Before(env.utcDate(Get(item, field)), p.date))
  {
    var text := Render(p) + "..";
    var iv := DateInterval(Some(p.date), None);
    RangeQuery(field, Some(p), None, fast);
    assert RenderOpt(Some(p)) + ".." + RenderOpt(None) == text;
    assert FromPeriods(Some(p), None) == Ok(iv);
    DateLeafMatches(field, text, fast, iv, item, env);
  }

  /** `..B` matches every record up to the end of `B`. */
  lemma UntilPeriodQuery(field: string, q: Period, fast: bool, item: Item, env: Env)
    requires Valid(q.date) && Aligned(q) && OpenRightEndpoint(q).Ok?
    requires Valid(env.utcDate(Get(item, field)))
    ensures var r := NewDateQuery(field, ".." + Render(q), fast);
      r.Ok? && (Matches(r.value, item, env) <==>
                var d := env.utcDate(Get(item, field)); Before(d, q.date) || InPeriod(d, q))
  {
    var text := ".." + Render(q);
    RangeQuery(field, None, Some(q), fast);
    assert RenderOpt(None) + ".." + RenderOpt(Some(q)) == text;
    BeforeEndOfPeriod(q, env.utcDate(Get(item, field)));
    var iv := DateInterval(None, Some(OpenRightEndpoint(q).value));
    assert FromPeriods(None, Some(q)) == Ok(iv);
    DateLeafMatches(field, text, fast, iv, item, env);
  }

  lemma RenderNoDot(p: Period)
    requires Valid(p.date)
    ensures '.' !in Render(p)
  {
    var y := Pad4(p.date.year);
    assert '.' !in y;
    if p.precision != Year {
      assert '.' !in Pad2(p.date.month) && '.' !in Pad2(p.date.day);
    }
  }

  lemma YearInterval(y: int)
    requires MinYear <= y < MaxYear
    ensures FromPeriods(Some(Period(Date(y, 1, 1), Year)), Some(Period(Date(y, 1, 1), Year))) ==
            Ok(DateInterval(Some(Date(y, 1, 1)), Some(Date(y + 1, 1, 1))))
  {
    assert OpenRightEndpoint(Period(Date(y, 1, 1), Year)) == Ok(Date(y + 1, 1, 1));
  }

  /** A record stamped `t` for which the two paths disagree when local time is
      `utcOffset` seconds ahead of UTC: the last second of year `y - 1` (UTC)
      when local time is ahead, the first second of year `y + 1` when it is
      behind. */
  function ZoneWitness(y: int, utcOffset: int): int {
    if utcOffset > 0 then LocalEpochSeconds(Date(y, 1, 1), 0) - 1 else LocalEpochSeconds(Date(y + 1, 1, 1), 0)
  }

  /** Away from UTC the two paths disagree: for every nonzero offset of at most
      than a day, the compiled query for year `y` selects a record whose UTC
      day lies outside `y`, which `match` rejects. */
  lemma DateZoneDisagreement(field: string, y: int, utcOffset: int, env: Env)
    requires MinYear <= y < MaxYear && utcOffset != 0 && -86400 <= utcOffset <= 86400
    requires env.utcDate(Int(LocalEpochSeconds(Date(y, 1, 1), 0) - 1)) == Date(y - 1, 12, 31)
    requires env.utcDate(Int(LocalEpochSeconds(Date(y + 1, 1, 1), 0))) == Date(y + 1, 1, 1)
    ensures NewDateQuery(field, Render(Period(Date(y, 1, 1), Year)), true).Ok?
    ensures var q := NewDateQuery(field, Render(Period(Date(y, 1, 1), Year)), true).value;
      var t := ZoneWitness(y, utcOffset);
      StoreSelects(Clause(q, utcOffset), field, t) && !Matches(q, map[field := Int(t)], env)
  {
    YearQuery(field, y);
    ZoneSelects(field, y, utcOffset);
    ZoneMisses(field, Render(Period(Date(y, 1, 1), Year)), y, utcOffset, env);
  }

  /** The date leaf for the text of year `y` spans `[y-01-01, (y+1)-01-01)`. */
  lemma YearQuery(field: string, y: int)
    requires MinYear <= y < MaxYear
    ensures NewDateQuery(field, Render(Period(Date(y, 1, 1), Year)), true) ==
            Ok(DateQuery(field, Render(Period(Date(y, 1, 1), Year)), true,
                         DateInterval(Some(Date(y, 1, 1)), Some(Date(y + 1, 1, 1)))))
  {
    YearInterval(y);
    PeriodQueryInterval(field, Period(Date(y, 1, 1), Year), true);
  }

  lemma ZoneSelects(field: string, y: int, utcOffset: int)
    requires MinYear <= y < MaxYear && utcOffset != 0 && -86400 <= utcOffset <= 86400
    ensures StoreSelects(DateColClause(field, DateInterval(Some(Date(y, 1, 1)), Some(Date(y + 1, 1, 1))), utcOffset),
                         field, ZoneWitness(y, utcOffset))
  {
    var start, end := Date(y, 1, 1), Date(y + 1, 1, 1);
    EpochSecondsMonotone(start, end, 0);
    DistinctComparisons(field);
  }

  lemma ZoneMisses(field: string, pattern: string, y: int, utcOffset: int, env: Env)
    requires MinYear <= y < MaxYear
    requires env.utcDate(Int(LocalEpochSeconds(Date(y, 1, 1), 0) - 1)) == Date(y - 1, 12, 31)
    requires env.utcDate(Int(LocalEpochSeconds(Date(y + 1, 1, 1), 0))) == Date(y + 1, 1, 1)
    ensures !Matches(DateQuery(field, pattern, true, DateInterval(Some(Date(y, 1, 1)), Some(Date(y + 1, 1, 1)))),
                     map[field := Int(ZoneWitness(y, utcOffset))], env)
  {
    var t := ZoneWitness(y, utcOffset);
    assert Get(map[field := Int(t)], field) == Int(t);
  }

  // ------------------------------------------------------- any field

  /** An any-field query over leaves built for each field compiles to the
      `or` of their column clauses, refuses outright for a regular
      expression, and over no fields compiles to `''` yet matches nothing. */
  lemma AnyFieldClause(q: Query, utcOffset: int, item: Item, env: Env)
    requires q.AnyFieldQuery? && |q.subqueries| == |q.fields|
    requires forall i :: 0 <= i < |q.fields| ==> NewLeaf(q.kind, q.fields[i], q.pattern, true) == Ok(q.subqueries[i])
    ensures q.kind == RegexpKind && |q.fields| > 0 ==> Clause(q, utcOffset) == Refused
    ensures |q.fields| == 0 ==> Clause(q, utcOffset) == Fragment(Some(""), []) && !Matches(q, item, env)
    ensures forall i :: 0 <= i < |q.fields| ==>
      IsLeaf(q.subqueries[i]) && q.subqueries[i].field == q.fields[i] &&
      Clause(q.subqueries[i], utcOffset) == ColClause(q.subqueries[i], utcOffset)
  {
    forall i | 0 <= i < |q.fields|
      ensures IsLeaf(q.subqueries[i]) && q.subqueries[i].fast && q.subqueries[i].field == q.fields[i]
    {
      assert NewLeaf(q.kind, q.fields[i], q.pattern, true) == Ok(q.subqueries[i]);
    }
    if q.kind == RegexpKind && |q.fields| > 0 {
      RefusalPropagates(q, 0, utcOffset);
    }
  }
}
