/** The sort engine: each sort contributes a `SELECT` fragment, a `LEFT JOIN`
    fragment and an `ORDER BY` fragment, or `None` where it can only sort in
    memory; `MultipleSort` chains several criteria. */
module Sorts {
  import opened Base
  import opened Text

  datatype Sort =
    | SlowSort                                                  // the base `Sort`: no fragment at any facet
    | FixedFieldSort(field: string, ascending: bool)
    | FlexFieldSort(table: string, flexTable: string, field: string, ascending: bool)
    | SmartArtistSort(modelFields: set<string>, ascending: bool)
    | Chain(sorts: seq<Sort>)                                   // the criteria of a `MultipleSort`

  function Direction(ascending: bool): string {
    if ascending then "ASC" else "DESC"
  }

  /** The values before the first `None`. */
  function UntilNone(xs: seq<Option<string>>): seq<string> {
    if |xs| == 0 || xs[0].None? then [] else [xs[0].value] + UntilNone(xs[1..])
  }

  /** `UntilNone` keeps exactly the values in front of the first `None`. */
  lemma {:induction false} UntilNonePrefix(xs: seq<Option<string>>)
    ensures var r := UntilNone(xs);
      |r| <= |xs| && (forall i :: 0 <= i < |r| ==> xs[i] == Some(r[i])) &&
      (|r| < |xs| ==> xs[|r|] == None)
  {
    if |xs| > 0 && xs[0].Some? {
      UntilNonePrefix(xs[1..]);
      var r := UntilNone(xs);
      assert r[1..] == UntilNone(xs[1..]);
      forall i | 0 <= i < |r|
        ensures xs[i] == Some(r[i])
      {
        if i > 0 {
          assert xs[i] == xs[1..][i - 1];
        }
      }
    }
  }

  /** Every value, skipping the `None`s. */
  function Present(xs: seq<Option<string>>): seq<string> {
    if |xs| == 0 then []
    else (if xs[0].Some? then [xs[0].value] else []) + Present(xs[1..])
  }

  /** The order fragments before the first `None`; the first error raised
      before that point wins. */
  function OrderPrefix(rs: seq<Result<Option<string>>>): Result<seq<string>> {
    if |rs| == 0 then Ok([])
    else match rs[0]
      case Err(e) => Err(e)
      case Ok(None) => Ok([])
      case Ok(Some(o)) =>
        match OrderPrefix(rs[1..])
        case Err(e) => Err(e)
        case Ok(rest) => Ok([o] + rest)
  }

  /** `MultipleSort.select_clause`'s final step: `""`, or the joined
      fragments after `", "`. */
  function SelectText(parts: seq<string>): (r: string)
    ensures r == "" <==> Join(",", parts) == ""
    ensures r != "" ==> r == ", " + Join(",", parts)
  {
    var joined := Join(",", parts);
    if joined == "" then "" else ", " + joined
  }

  function Selects(ss: seq<Sort>): (xs: seq<Option<string>>)
    decreases ss
    ensures |xs| == |ss| && forall i :: 0 <= i < |ss| ==> xs[i] == SelectOf(ss[i])
  {
    seq(|ss|, i requires 0 <= i < |ss| => SelectOf(ss[i]))
  }

  function Unions(ss: seq<Sort>): (xs: seq<Option<string>>)
    decreases ss
    ensures |xs| == |ss| && forall i :: 0 <= i < |ss| ==> xs[i] == UnionOf(ss[i])
  {
    seq(|ss|, i requires 0 <= i < |ss| => UnionOf(ss[i]))
  }

  function Orders(ss: seq<Sort>): (rs: seq<Result<Option<string>>>)
    decreases ss
    ensures |rs| == |ss| && forall i :: 0 <= i < |ss| ==> rs[i] == OrderOf(ss[i])
  {
    seq(|ss|, i requires 0 <= i < |ss| => OrderOf(ss[i]))
  }

  /** `select_clause()`. */
  function SelectOf(s: Sort): Option<string>
    decreases s
  {
    match s
    case SlowSort => None
    case FixedFieldSort(_, _) => None
    case FlexFieldSort(_, _, f, _) => Some("sort_flexattr" + f + ".value as flex_" + f + " ")
    case SmartArtistSort(_, _) => Some("")
    case Chain(ss) => Some(SelectText(UntilNone(Selects(ss))))
  }

  /** `union_clause()`. */
  function UnionOf(s: Sort): Option<string>
    decreases s
  {
    match s
    case SlowSort => None
    case FixedFieldSort(_, _) => None
    case FlexFieldSort(table, flexTable, f, _) =>
      Some("LEFT JOIN " + flexTable + " as sort_flexattr" + f +
           " ON " + table + ".id = sort_flexattr" + f + ".entity_id" +
           " AND sort_flexattr" + f + ".key='" + f + "' ")
    case SmartArtistSort(_, _) => Some("")
    case Chain(ss) => Some(Join("", Present(Unions(ss))))
  }

  /** `order_clause()`. `SmartArtistSort` reads the misspelt attribute
      `model_cls_fields` when the model has no `albumartist_sort` field, which
      raises AttributeError. */
  function OrderOf(s: Sort): Result<Option<string>>
    decreases s
  {
    match s
    case SlowSort => Ok(None)
    case FixedFieldSort(f, asc) => Ok(Some(f + " " + Direction(asc)))
    case FlexFieldSort(_, _, f, asc) => Ok(Some("flex_" + f + " " + Direction(asc) + " "))
    case SmartArtistSort(fields, asc) =>
      if "albumartist_sort" in fields then
        Ok(Some("(CASE albumartist_sort WHEN NULL THEN albumartist WHEN \"\" THEN albumartist ELSE albumartist_sort END) " +
                Direction(asc) + " "))
      else Err(AttributeError)
    case Chain(ss) =>
      match OrderPrefix(Orders(ss))
      case Err(e) => Err(e)
      case Ok(parts) => Ok(Some(Join(",", parts)))
  }

  /** `sort(items)`: every sort hands the records back as they came. */
  function SortItems(s: Sort, items: seq<Item>): (r: seq<Item>)
    ensures r == items
  {
    items
  }

  /** `parts` placed before the outcome of the remaining sorts. */
  function Prepend(parts: seq<string>, r: Result<seq<string>>): Result<seq<string>> {
    match r
    case Err(e) => Err(e)
    case Ok(rest) => Ok(parts + rest)
  }

  lemma PrependEmpty(r: Result<seq<string>>)
    ensures Prepend([], r) == r
  {
    if r.Ok? {
      assert [] + r.value == r.value;
    }
  }

  lemma PrependTwice(a: seq<string>, b: seq<string>, r: Result<seq<string>>)
    ensures Prepend(a, Prepend(b, r)) == Prepend(a + b, r)
  {
    if r.Ok? {
      assert a + (b + r.value) == (a + b) + r.value;
    }
  }

  lemma AppendAssoc(acc: seq<string>, x: string, rest: seq<string>)
    ensures acc + ([x] + rest) == (acc + [x]) + rest
  {
  }

  /** One step of `UntilNone` at position `i`. */
  lemma UntilNoneStep(xs: seq<Option<string>>, i: nat)
    requires i < |xs|
    ensures xs[i].None? ==> UntilNone(xs[i..]) == []
    ensures xs[i].Some? ==> UntilNone(xs[i..]) == [xs[i].value] + UntilNone(xs[i + 1..])
  {
    assert xs[i..][0] == xs[i] && xs[i..][1..] == xs[i + 1..];
  }

  /** Where the loop over `UntilNone` ends, nothing is left to add. */
  lemma UntilNoneRest(xs: seq<Option<string>>, i: nat, acc: seq<string>)
    requires i <= |xs| && UntilNone(xs) == acc + UntilNone(xs[i..])
    requires i < |xs| ==> xs[i].None?
    ensures UntilNone(xs) == acc
  {
    if i < |xs| {
      UntilNoneStep(xs, i);
    } else {
      assert xs[i..] == [];
    }
    assert acc + [] == acc;
  }

  /** One step of `Present` at position `i`. */
  lemma PresentStep(xs: seq<Option<string>>, i: nat)
    requires i < |xs|
    ensures xs[i].None? ==> Present(xs[i..]) == Present(xs[i + 1..])
    ensures xs[i].Some? ==> Present(xs[i..]) == [xs[i].value] + Present(xs[i + 1..])
  {
    assert xs[i..][0] == xs[i] && xs[i..][1..] == xs[i + 1..];
    assert [] + Present(xs[i + 1..]) == Present(xs[i + 1..]);
  }

  lemma PresentEnd(xs: seq<Option<string>>, acc: seq<string>)
    requires Present(xs) == acc + Present(xs[|xs|..])
    ensures Present(xs) == acc
  {
    assert xs[|xs|..] == [];
    assert acc + [] == acc;
  }

  class MultipleSort {
    var sorts: seq<Sort>

    constructor ()
      ensures sorts == []
    {
      sorts := [];
    }

    /** The sort this object currently stands for. */
    function AsSort(): (s: Sort)
      reads this
      ensures s.Chain? && s.sorts == sorts
    {
      Chain(sorts)
    }

    /** `add_criteria(sort)`. */
    method AddCriteria(s: Sort)
      modifies this
      ensures sorts == old(sorts) + [s]
    {
      sorts := sorts + [s];
    }

    /** `select_clause()` as written: the loop breaks at the first `None`. */
    method SelectClause() returns (r: string)
      ensures SelectOf(AsSort()) == Some(r)
    {
      ghost var xs := Selects(sorts);
      var selectStrings: seq<string> := [];
      var i := 0;
      while i < |sorts|
        invariant 0 <= i <= |sorts|
        invariant UntilNone(xs) == selectStrings + UntilNone(xs[i..])
      {
        var select := SelectOf(sorts[i]);
        assert select == xs[i];
        UntilNoneStep(xs, i);
        if select.None? {
          break;
        }
        AppendAssoc(selectStrings, select.value, UntilNone(xs[i + 1..]));
        selectStrings := selectStrings + [select.value];
        i := i + 1;
      }
      UntilNoneRest(xs, i, selectStrings);
      var selectString := Join(",", selectStrings);
      r := if selectString == "" then "" else ", " + selectString;
      assert r == SelectText(UntilNone(xs));
      assert SelectOf(Chain(sorts)) == Some(SelectText(UntilNone(xs)));
    }

    /** `union_clause()` as written: the loop skips every `None`. */
    method UnionClause() returns (r: string)
      ensures UnionOf(AsSort()) == Some(r)
    {
      ghost var xs := Unions(sorts);
      var unionStrings: seq<string> := [];
      for i := 0 to |sorts|
        invariant Present(xs) == unionStrings + Present(xs[i..])
      {
        var union := UnionOf(sorts[i]);
        PresentStep(xs, i);
        if union.Some? {
          AppendAssoc(unionStrings, union.value, Present(xs[i + 1..]));
          unionStrings := unionStrings + [union.value];
        }
      }
      PresentEnd(xs, unionStrings);
      r := Join("", unionStrings);
    }

    /** `order_clause()` as written: the loop breaks at the first `None`, and
      an exception raised by a criterion propagates. */
    method OrderClause() returns (r: Result<string>)
      ensures r.Ok? ==> OrderOf(AsSort()) == Ok(Some(r.value))
      ensures r.Err? ==> OrderOf(AsSort()) == Err(r.error)
    {
      ghost var rs := Orders(sorts);
      var orderStrings: seq<string> := [];
      var i := 0;
      assert rs[0..] == rs;
      PrependEmpty(OrderPrefix(rs));
      while i < |sorts|
        invariant 0 <= i <= |sorts|
        invariant OrderPrefix(rs) == Prepend(orderStrings, OrderPrefix(rs[i..]))
      {
        var order := OrderOf(sorts[i]);
        assert rs[i..][0] == order && rs[i..][1..] == rs[i + 1..];
        if order.Err? {
          return Err(order.error);
        }
        if order.value.None? {
          assert OrderPrefix(rs) == Ok(orderStrings + []);
          assert orderStrings + [] == orderStrings;
          break;
        }
        assert OrderPrefix(rs[i..]) == Prepend([order.value.value], OrderPrefix(rs[i + 1..]));
        PrependTwice(orderStrings, [order.value.value], OrderPrefix(rs[i + 1..]));
        orderStrings := orderStrings + [order.value.value];
        i := i + 1;
      }
      assert i == |sorts| ==> rs[i..] == [] && OrderPrefix(rs) == Ok(orderStrings + []);
      assert orderStrings + [] == orderStrings;
      r := Ok(Join(",", orderStrings));
    }

    /** `sort(items)`. */
    method SortItemsOf(items: seq<Item>) returns (r: seq<Item>)
      ensures r == SortItems(AsSort(), items)
    {
      r := items;
    }
  }
}
