/** How a chain of sort criteria behaves: the `SELECT` and `ORDER BY` parts
    end at the first criterion that can only sort in memory, the `LEFT JOIN`
    part skips such criteria, and an exception is raised only by a criterion
    the chain reaches. */
module SortLaws {
  import opened Base
  import opened Text
  import opened Sorts

  lemma {:induction false} UntilNoneStops(xs: seq<Option<string>>, ys: seq<Option<string>>)
    ensures UntilNone(xs + [None] + ys) == UntilNone(xs)
  {
    if |xs| == 0 {
      assert (xs + [None] + ys)[0] == None;
    } else {
      assert (xs + [None] + ys)[0] == xs[0];
      assert (xs + [None] + ys)[1..] == xs[1..] + [None] + ys;
      UntilNoneStops(xs[1..], ys);
    }
  }

  lemma {:induction false} OrderPrefixStops(rs: seq<Result<Option<string>>>, ys: seq<Result<Option<string>>>)
    ensures OrderPrefix(rs + [Ok(None)] + ys) == OrderPrefix(rs)
  {
    if |rs| == 0 {
      assert (rs + [Ok(None)] + ys)[0] == Ok(None);
    } else {
      assert (rs + [Ok(None)] + ys)[0] == rs[0];
      assert (rs + [Ok(None)] + ys)[1..] == rs[1..] + [Ok(None)] + ys;
      OrderPrefixStops(rs[1..], ys);
    }
  }

  /** The criteria before `s` all yield an order fragment. */
  predicate Reaches(rs: seq<Result<Option<string>>>) {
    forall i :: 0 <= i < |rs| ==> rs[i].Ok? && rs[i].value.Some?
  }

  lemma {:induction false} OrderPrefixRaises(rs: seq<Result<Option<string>>>, e: Error, ys: seq<Result<Option<string>>>)
    requires Reaches(rs)
    ensures OrderPrefix(rs + [Err(e)] + ys) == Err(e)
  {
    if |rs| == 0 {
      assert (rs + [Err(e)] + ys)[0] == Err(e);
    } else {
      assert (rs + [Err(e)] + ys)[0] == rs[0];
      assert (rs + [Err(e)] + ys)[1..] == rs[1..] + [Err(e)] + ys;
      OrderPrefixRaises(rs[1..], e, ys);
    }
  }

  lemma {:induction false} PresentConcat(xs: seq<Option<string>>, ys: seq<Option<string>>)
    ensures Present(xs + ys) == Present(xs) + Present(ys)
  {
    if |xs| == 0 {
      assert xs + ys == ys;
    } else {
      assert (xs + ys)[0] == xs[0];
      assert (xs + ys)[1..] == xs[1..] + ys;
      PresentConcat(xs[1..], ys);
    }
  }

  /** A criterion without a `SELECT` fragment ends the chain's `SELECT` part:
      nothing after it contributes. */
  lemma SelectStopsAtSlow(pre: seq<Sort>, s: Sort, post: seq<Sort>)
    requires SelectOf(s).None?
    ensures SelectOf(Chain(pre + [s] + post)) == SelectOf(Chain(pre))
  {
    SelectsSplit(pre, s, post);
    UntilNoneStops(Selects(pre), Selects(post));
  }

  lemma SelectsSplit(pre: seq<Sort>, s: Sort, post: seq<Sort>)
    ensures Selects(pre + [s] + post) == Selects(pre) + [SelectOf(s)] + Selects(post)
  {
    var ss, xs := pre + [s] + post, Selects(pre) + [SelectOf(s)] + Selects(post);
    forall i | 0 <= i < |ss|
      ensures Selects(ss)[i] == xs[i]
    {
      if i < |pre| {
        assert ss[i] == pre[i];
      } else if i > |pre| {
        assert ss[i] == post[i - |pre| - 1];
      }
    }
  }

  /** A criterion without an `ORDER BY` fragment ends the chain's order:
      nothing after it contributes, and nothing after it can raise. */
  lemma OrderStopsAtSlow(pre: seq<Sort>, s: Sort, post: seq<Sort>)
    requires OrderOf(s) == Ok(None)
    ensures OrderOf(Chain(pre + [s] + post)) == OrderOf(Chain(pre))
  {
    OrdersSplit(pre, s, post);
    OrderPrefixStops(Orders(pre), Orders(post));
  }

  /** A criterion that raises makes the chain raise, once every criterion
      before it yields an order fragment. */
  lemma OrderRaisesWhenReached(pre: seq<Sort>, s: Sort, post: seq<Sort>)
    requires OrderOf(s).Err?
    requires forall i :: 0 <= i < |pre| ==> OrderOf(pre[i]).Ok? && OrderOf(pre[i]).value.Some?
    ensures OrderOf(Chain(pre + [s] + post)) == OrderOf(s)
  {
    OrdersSplit(pre, s, post);
    OrderPrefixRaises(Orders(pre), OrderOf(s).error, Orders(post));
  }

  lemma OrdersSplit(pre: seq<Sort>, s: Sort, post: seq<Sort>)
    ensures Orders(pre + [s] + post) == Orders(pre) + [OrderOf(s)] + Orders(post)
  {
    var ss, rs := pre + [s] + post, Orders(pre) + [OrderOf(s)] + Orders(post);
    forall i | 0 <= i < |ss|
      ensures Orders(ss)[i] == rs[i]
    {
      if i < |pre| {
        assert ss[i] == pre[i];
      } else if i > |pre| {
        assert ss[i] == post[i - |pre| - 1];
      }
    }
  }

  /** The `LEFT JOIN` part skips a criterion without one and keeps going. */
  lemma UnionSkipsSlow(pre: seq<Sort>, s: Sort, post: seq<Sort>)
    requires UnionOf(s).None?
    ensures UnionOf(Chain(pre + [s] + post)) == UnionOf(Chain(pre + post))
  {
    UnionsSplit(pre, s, post);
    PresentConcat(Unions(pre) + [None], Unions(post));
    PresentConcat(Unions(pre), [None]);
    PresentConcat(Unions(pre), Unions(post));
    assert Present([None]) == [];
    assert Present(Unions(pre)) + [] == Present(Unions(pre));
  }

  lemma UnionsSplit(pre: seq<Sort>, s: Sort, post: seq<Sort>)
    ensures Unions(pre + [s] + post) == Unions(pre) + [UnionOf(s)] + Unions(post)
    ensures Unions(pre + post) == Unions(pre) + Unions(post)
  {
  }

  /** The smart-artist sort raises only on a model without `albumartist_sort`,
      and only when the chain reaches it. */
  lemma SmartArtistRaises(fields: set<string>, asc: bool)
    ensures "albumartist_sort" in fields ==>
            OrderOf(SmartArtistSort(fields, asc)).Ok? && OrderOf(SmartArtistSort(fields, asc)).value.Some?
    ensures "albumartist_sort" !in fields ==> OrderOf(SmartArtistSort(fields, asc)) == Err(AttributeError)
  {
  }

  /** Alone in a chain, the smart-artist sort orders, or raises, as it does
      on its own. */
  lemma SmartArtistChain(fields: set<string>, asc: bool)
    ensures OrderOf(Chain([SmartArtistSort(fields, asc)])) == OrderOf(SmartArtistSort(fields, asc))
  {
    ChainOfOne(SmartArtistSort(fields, asc));
  }

  /** Behind a criterion without an order fragment the smart-artist sort is
      never reached, so it cannot raise. */
  lemma SmartArtistBehindSlow(fields: set<string>, asc: bool)
    ensures OrderOf(Chain([SlowSort, SmartArtistSort(fields, asc)])) == Ok(Some(""))
  {
    var ss := [SmartArtistSort(fields, asc)];
    OrderStopsAtSlow([], SlowSort, ss);
    assert [] + [SlowSort] + ss == [SlowSort, SmartArtistSort(fields, asc)];
    assert Orders([]) == [];
  }

  /** A chain of one criterion that gives an order fragment or raises orders
      as that criterion does. */
  lemma ChainOfOne(s: Sort)
    requires OrderOf(s).Err? || OrderOf(s).value.Some?
    ensures OrderOf(Chain([s])) == OrderOf(s)
  {
    OrdersOne(s);
    OrderPrefixOne(OrderOf(s));
  }

  lemma OrdersOne(s: Sort)
    ensures Orders([s]) == [OrderOf(s)]
  {
  }

  lemma OrderPrefixOne(r: Result<Option<string>>)
    requires r.Err? || r.value.Some?
    ensures r.Err? ==> OrderPrefix([r]) == Err(r.error)
    ensures r.Ok? ==> OrderPrefix([r]) == Ok([r.value.value]) && Join(",", [r.value.value]) == r.value.value
  {
    assert [r][1..] == [];
    if r.Ok? {
      assert [r.value.value] + [] == [r.value.value];
    }
  }

  /** A fixed-field criterion has no `SELECT` fragment, so in front of a
      flexible-attribute criterion it drops that criterion's `flex_` column
      from the `SELECT` part. */
  lemma FixedBeforeFlexSelect(f: string, table: string, flexTable: string, g: string)
    ensures SelectOf(Chain([FixedFieldSort(f, true), FlexFieldSort(table, flexTable, g, true)])) == Some("")
  {
    var fixed, flex := FixedFieldSort(f, true), FlexFieldSort(table, flexTable, g, true);
    SelectStopsAtSlow([], fixed, [flex]);
    assert [] + [fixed] + [flex] == [fixed, flex];
    assert Selects([]) == [];
  }

  /** ... while the `ORDER BY` part still sorts by the `flex_` column. */
  lemma FixedBeforeFlexOrder(f: string, table: string, flexTable: string, g: string)
    ensures OrderOf(Chain([FixedFieldSort(f, true), FlexFieldSort(table, flexTable, g, true)])) ==
            Ok(Some(f + " ASC" + "," + "flex_" + g + " ASC "))
  {
    var fixed, flex := FixedFieldSort(f, true), FlexFieldSort(table, flexTable, g, true);
    var rs := Orders([fixed, flex]);
    var o1, o2 := f + " " + "ASC", "flex_" + g + " " + "ASC" + " ";
    assert rs[0] == Ok(Some(o1)) && rs[1..] == [Ok(Some(o2))];
    OrderPrefixPair(o1, o2);
    JoinPair(o1, o2);
    assert " " + "ASC" == " ASC" && " " + "ASC" + " " == " ASC ";
    assert o1 + "," + o2 == f + " ASC" + "," + "flex_" + g + " ASC ";
  }

  lemma OrderPrefixPair(a: string, b: string)
    ensures OrderPrefix([Ok(Some(a)), Ok(Some(b))]) == Ok([a, b])
  {
    var rs := [Ok(Some(a)), Ok(Some(b))];
    assert rs[1..] == [Ok(Some(b))] && rs[1..][1..] == [];
    assert OrderPrefix(rs[1..]) == Ok([b] + []);
    assert [a] + ([b] + []) == [a, b];
  }

  lemma JoinPair(a: string, b: string)
    ensures Join(",", [a, b]) == a + "," + b
  {
    assert [a, b][..1] == [a];
  }

  /** With the order swapped the flexible-attribute criterion keeps its
      `SELECT` fragment. */
  lemma FlexBeforeFixedSelect(f: string, table: string, flexTable: string, g: string)
    ensures SelectOf(Chain([FlexFieldSort(table, flexTable, g, true), FixedFieldSort(f, true)])) ==
            Some(", sort_flexattr" + g + ".value as flex_" + g + " ")
  {
    var fixed, flex := FixedFieldSort(f, true), FlexFieldSort(table, flexTable, g, true);
    SelectStopsAtSlow([flex], fixed, []);
    assert [flex] + [fixed] + [] == [flex, fixed];
    var x := "sort_flexattr" + g + ".value as flex_" + g + " ";
    assert Selects([flex]) == [Some(x)];
    SingleSelect(x);
    FlexSelectText(g);
  }

  lemma SingleSelect(x: string)
    requires x != ""
    ensures SelectText(UntilNone([Some(x)])) == ", " + x
  {
    assert [Some(x)][1..] == [];
    assert UntilNone([Some(x)]) == [x];
  }

  lemma FlexSelectText(g: string)
    ensures ", " + ("sort_flexattr" + g + ".value as flex_" + g + " ") ==
            ", sort_flexattr" + g + ".value as flex_" + g + " "
  {
    assert ", " + "sort_flexattr" == ", sort_flexattr";
  }

  /** A flexible-attribute criterion's three fragments fit together: the
      `SELECT` fragment reads `value` from the alias its `LEFT JOIN`
      introduces and names it `flex_<field>`, the column its `ORDER BY`
      fragment sorts by, in the requested direction. */
  lemma FlexFragmentsAgree(table: string, flexTable: string, f: string, asc: bool)
    ensures var s := FlexFieldSort(table, flexTable, f, asc);
      SelectOf(s) == Some("sort_flexattr" + f + ".value as flex_" + f + " ") &&
      UnionOf(s).Some? && OccursAt(" as sort_flexattr" + f, UnionOf(s).value, |"LEFT JOIN " + flexTable|) &&
      OrderOf(s).Ok? && OrderOf(s).value.Some? && OccursAt("flex_" + f + " ", OrderOf(s).value.value, 0) &&
      (OccursAt("ASC", OrderOf(s).value.value, |"flex_" + f + " "|) <==> asc)
  {
    FlexUnionAlias(table, flexTable, f);
    FlexOrderColumn("flex_" + f + " ", asc);
  }

  lemma FlexUnionAlias(table: string, flexTable: string, f: string)
    ensures OccursAt(" as sort_flexattr" + f, UnionOf(FlexFieldSort(table, flexTable, f, true)).value, |"LEFT JOIN " + flexTable|)
  {
    var head, mid := "LEFT JOIN " + flexTable, " as sort_flexattr" + f;
    var u := UnionOf(FlexFieldSort(table, flexTable, f, true)).value;
    OccursAfter(head, mid, u[|head + mid|..], u);
  }

  lemma FlexOrderColumn(column: string, asc: bool)
    ensures OccursAt(column, column + Direction(asc) + " ", 0)
    ensures OccursAt("ASC", column + Direction(asc) + " ", |column|) <==> asc
  {
    OccursAfter("", column, Direction(asc) + " ", column + Direction(asc) + " ");
    OccursAfter(column, Direction(asc), " ", column + Direction(asc) + " ");
    if !asc {
      var t := column + Direction(asc) + " ";
      assert t[|column|] == 'D';
      assert t[|column|..|column| + 3][0] == 'D';
    }
  }
}
