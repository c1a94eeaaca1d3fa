/** `MutableCollectionQuery`: the `AndQuery` or `OrQuery` whose list of
    subqueries is edited in place by index. */
module Collections {
  import opened Base
  import opened Queries

  /** Python's reading of `key` as an index into a list of `n` elements:
      negative keys count from the end; `None` where Python raises IndexError. */
  function ListIndex(key: int, n: nat): (r: Option<nat>)
    ensures r.None? <==> key >= n || key < -(n as int)
    ensures r.Some? ==> r.value < n && r.value == (if key < 0 then key + n else key)
  {
    if key >= n || key < -(n as int) then None
    else if key < 0 then Some(key + n)
    else Some(key)
  }

  /** `subs` without position `i`. */
  function Without(subs: seq<Query>, i: nat): (r: seq<Query>)
    requires i < |subs|
    ensures |r| == |subs| - 1
    ensures forall j :: 0 <= j < |r| ==> r[j] == (if j < i then subs[j] else subs[j + 1])
  {
    subs[..i] + subs[i + 1..]
  }

  class MutableCollectionQuery {
    var subqueries: seq<Query>
    /** `AndQuery` when set, `OrQuery` otherwise. */
    const conjunction: bool

    constructor (conjunction: bool, subqueries: seq<Query>)
      ensures this.conjunction == conjunction && this.subqueries == subqueries
    {
      this.conjunction := conjunction;
      this.subqueries := subqueries;
    }

    /** The query this object currently stands for. */
    function AsQuery(): (q: Query)
      reads this
      ensures q.AndQuery? == conjunction && q.OrQuery? == !conjunction
      ensures (q.AndQuery? || q.OrQuery?) && q.subqueries == subqueries
    {
      if conjunction then AndQuery(subqueries) else OrQuery(subqueries)
    }

    /** `self[key] = value`. */
    method SetItem(key: int, value: Query) returns (r: Result<()>)
      modifies this
      ensures var i := ListIndex(key, |old(subqueries)|);
        if i.None? then r == Err(IndexError) && subqueries == old(subqueries)
        else r == Ok(()) && subqueries == old(subqueries)[i.value := value]
    {
      var i := ListIndex(key, |subqueries|);
      if i.None? {
        return Err(IndexError);
      }
      subqueries := subqueries[i.value := value];
      return Ok(());
    }

    /** `del self[key]`. */
    method DelItem(key: int) returns (r: Result<()>)
      modifies this
      ensures var i := ListIndex(key, |old(subqueries)|);
        if i.None? then r == Err(IndexError) && subqueries == old(subqueries)
        else r == Ok(()) && subqueries == Without(old(subqueries), i.value)
    {
      var i := ListIndex(key, |subqueries|);
      if i.None? {
        return Err(IndexError);
      }
      subqueries := Without(subqueries, i.value);
      return Ok(());
    }

    /** `clause()`: the children joined with `and` or `or`. */
    method Clause(utcOffset: int) returns (c: Fragment)
      ensures c == Queries.Clause(AsQuery(), utcOffset)
    {
      c := ClauseWithJoiner(subqueries, if conjunction then "and" else "or", utcOffset);
    }
  }

  /** After `self[i] = q` the conjunction is `q` together with every other
      child, and the disjunction is `q` or any other child. */
  lemma ReplaceOnlyAt(subs: seq<Query>, i: nat, q: Query, item: Item, env: Env)
    requires i < |subs|
    ensures Matches(AndQuery(subs[i := q]), item, env) <==>
            Matches(q, item, env) && forall j :: 0 <= j < |subs| && j != i ==> Matches(subs[j], item, env)
    ensures Matches(OrQuery(subs[i := q]), item, env) <==>
            Matches(q, item, env) || exists j :: 0 <= j < |subs| && j != i && Matches(subs[j], item, env)
  {
    var r := subs[i := q];
    SameOthers(subs, r, i, q, item, env);
  }

  /** Two child lists that agree away from position `i`, where `r` holds `q`. */
  lemma SameOthers(subs: seq<Query>, r: seq<Query>, i: nat, q: Query, item: Item, env: Env)
    requires i < |subs| == |r| && r[i] == q
    requires forall j :: 0 <= j < |subs| && j != i ==> r[j] == subs[j]
    ensures (forall j :: 0 <= j < |r| ==> Matches(r[j], item, env)) <==>
            Matches(q, item, env) && forall j :: 0 <= j < |subs| && j != i ==> Matches(subs[j], item, env)
    ensures (exists j :: 0 <= j < |r| && Matches(r[j], item, env)) <==>
            Matches(q, item, env) || exists j :: 0 <= j < |subs| && j != i && Matches(subs[j], item, env)
  {
    if exists j :: 0 <= j < |r| && Matches(r[j], item, env) {
      var j :| 0 <= j < |r| && Matches(r[j], item, env);
      if j != i {
        assert Matches(subs[j], item, env);
      }
    }
    if exists j :: 0 <= j < |subs| && j != i && Matches(subs[j], item, env) {
      var j :| 0 <= j < |subs| && j != i && Matches(subs[j], item, env);
      assert Matches(r[j], item, env);
    }
    if !(forall j :: 0 <= j < |r| ==> Matches(r[j], item, env)) {
      var j :| 0 <= j < |r| && !Matches(r[j], item, env);
      if j != i {
        assert !Matches(subs[j], item, env);
      }
    }
    if !(forall j :: 0 <= j < |subs| && j != i ==> Matches(subs[j], item, env)) {
      var j :| 0 <= j < |subs| && j != i && !Matches(subs[j], item, env);
      assert !Matches(r[j], item, env);
    }
  }

  lemma DropOneAll(subs: seq<Query>, i: nat, item: Item, env: Env)
    requires i < |subs|
    ensures var r := Without(subs, i);
      (forall k :: 0 <= k < |r| ==> Matches(r[k], item, env)) <==>
      (forall j :: 0 <= j < |subs| && j != i ==> Matches(subs[j], item, env))
  {
    var r := Without(subs, i);
    if !(forall j :: 0 <= j < |subs| && j != i ==> Matches(subs[j], item, env)) {
      var j :| 0 <= j < |subs| && j != i && !Matches(subs[j], item, env);
      var k := if j < i then j else j - 1;
      assert r[k] == subs[j];
    }
    if !(forall k :: 0 <= k < |r| ==> Matches(r[k], item, env)) {
      var k :| 0 <= k < |r| && !Matches(r[k], item, env);
      var j := if k < i then k else k + 1;
      assert r[k] == subs[j];
    }
  }

  lemma DropOneAny(subs: seq<Query>, i: nat, item: Item, env: Env)
    requires i < |subs|
    ensures var r := Without(subs, i);
      (exists k :: 0 <= k < |r| && Matches(r[k], item, env)) <==>
      (exists j :: 0 <= j < |subs| && j != i && Matches(subs[j], item, env))
  {
    var r := Without(subs, i);
    if exists j :: 0 <= j < |subs| && j != i && Matches(subs[j], item, env) {
      var j :| 0 <= j < |subs| && j != i && Matches(subs[j], item, env);
      var k := if j < i then j else j - 1;
      assert r[k] == subs[j];
    }
    if exists k :: 0 <= k < |r| && Matches(r[k], item, env) {
      var k :| 0 <= k < |r| && Matches(r[k], item, env);
      var j := if k < i then k else k + 1;
      assert r[k] == subs[j];
    }
  }

  /** After `del self[i]` the collection tests exactly the other children. */
  lemma DeleteOnlyAt(subs: seq<Query>, i: nat, item: Item, env: Env)
    requires i < |subs|
    ensures Matches(AndQuery(Without(subs, i)), item, env) <==>
            forall j :: 0 <= j < |subs| && j != i ==> Matches(subs[j], item, env)
    ensures Matches(OrQuery(Without(subs, i)), item, env) <==>
            exists j :: 0 <= j < |subs| && j != i && Matches(subs[j], item, env)
  {
    DropOneAll(subs, i, item, env);
    DropOneAny(subs, i, item, env);
  }

  /** Placing a refusing child anywhere makes the whole collection refuse. */
  lemma ReplaceWithRefusal(subs: seq<Query>, i: nat, q: Query, conjunction: bool, utcOffset: int)
    requires i < |subs| && Falsy(Queries.Clause(q, utcOffset))
    ensures Queries.Clause(if conjunction then AndQuery(subs[i := q]) else OrQuery(subs[i := q]), utcOffset) == Refused
  {
    assert ChildClauses(subs[i := q], utcOffset)[i] == Queries.Clause(q, utcOffset);
  }
}
