/** `build_sql`: the `SELECT` statement for one query and one sort order,
    with the values bound to its placeholders and the flag that tells the
    caller to filter in memory. */
module Statements {
  import opened Base
  import opened Text
  import opened Queries
  import opened Sorts
  import QueryLaws

  /** The `sort_order` argument: nothing, an `ORDER BY` text, or a `Sort`. */
  datatype SortOrder = NoOrder | OrderText(text: string) | OrderSort(sort: Sort)

  /** `(sql, subvals, slow)`. */
  datatype Statement = Statement(sql: string, subvals: seq<Value>, slow: bool)

  /** `"{0}".format(x)` for a fragment that may be `None`. */
  function FormatOpt(x: Option<string>): (r: string)
    ensures x.Some? ==> r == x.value
    ensures x.None? ==> r == "None"
  {
    match x
    case None => "None"
    case Some(s) => s
  }

  /** `where or '1'`. */
  function WhereText(c: Fragment): (r: string)
    ensures Falsy(c) ==> r == "1"
    ensures !Falsy(c) ==> r == c.text.value
  {
    if Falsy(c) then "1" else c.text.value
  }

  /** The select, union and order texts of `sort_order`; an exception raised
      by `order_clause()` propagates. */
  function SortParts(order: SortOrder): (r: Result<(string, string, string)>)
    ensures r.Err? <==> order.OrderSort? && OrderOf(order.sort).Err?
    ensures r.Err? ==> r.error == OrderOf(order.sort).error
    ensures r.Ok? && (order.NoOrder? || order == OrderText("")) ==> r.value == ("", "", "")
    ensures r.Ok? && order.OrderText? && order.text != "" ==> r.value == ("", "", " ORDER BY " + order.text)
    ensures r.Ok? && order.OrderSort? ==>
            r.value == (FormatOpt(SelectOf(order.sort)), FormatOpt(UnionOf(order.sort)),
                        " ORDER BY " + FormatOpt(OrderOf(order.sort).value))
  {
    match order
    case NoOrder => Ok(("", "", ""))
    case OrderText(t) => if t == "" then Ok(("", "", "")) else Ok(("", "", " ORDER BY " + t))
    case OrderSort(s) =>
      match OrderOf(s)
      case Err(e) => Err(e)
      case Ok(o) => Ok((FormatOpt(SelectOf(s)), FormatOpt(UnionOf(s)), " ORDER BY " + FormatOpt(o)))
  }

  function Assemble(table: string, select: string, union: string, where: string, order: string): string {
    "SELECT " + table + ".* " + select + " FROM " + table + " " + union + " WHERE " + where + " " + order
  }

  /** `build_sql(model_cls, query, sort_order)`, with `model_cls._table` as
      `table` and the time zone's offset at the epoch as `utcOffset`. */
  function BuildSql(table: string, q: Query, order: SortOrder, utcOffset: int): (r: Result<Statement>)
    ensures r.Err? <==> SortParts(order).Err?
    ensures r.Err? ==> r.error == OrderOf(order.sort).error
    ensures r.Ok? ==> r.value.subvals == Clause(q, utcOffset).subvals
    ensures r.Ok? ==> (r.value.slow <==> Clause(q, utcOffset).text.None?)
    ensures r.Ok? ==> var (select, union, o) := SortParts(order).value;
      r.value.sql == Assemble(table, select, union, WhereText(Clause(q, utcOffset)), o)
  {
    var c := Clause(q, utcOffset);
    match SortParts(order)
    case Err(e) => Err(e)
    case Ok((select, union, o)) =>
      Ok(Statement(Assemble(table, select, union, WhereText(c), o), c.subvals, c.text.None?))
  }

  // ------------------------------------------------------------------ laws

  /** A query that refuses to compile selects every row, and the caller is
      told to filter in memory. */
  lemma RefusedIsSlow(table: string, q: Query, order: SortOrder, utcOffset: int)
    requires Clause(q, utcOffset) == Refused && SortParts(order).Ok?
    ensures var r := BuildSql(table, q, order, utcOffset);
      r.Ok? && r.value.slow && r.value.subvals == [] &&
      r.value.sql == Assemble(table, SortParts(order).value.0, SortParts(order).value.1, "1", SortParts(order).value.2)
  {
  }

  /** An empty collection compiles to `''`: the statement selects every row
      with `WHERE 1`, yet it is not slow, unlike a refusal. */
  lemma EmptyCollectionNotSlow(table: string, utcOffset: int)
    ensures BuildSql(table, AndQuery([]), NoOrder, utcOffset) ==
            Ok(Statement("SELECT " + table + ".*  FROM " + table + "  WHERE 1 ", [], false))
    ensures BuildSql(table, OrQuery([]), NoOrder, utcOffset) ==
            Ok(Statement("SELECT " + table + ".*  FROM " + table + "  WHERE 1 ", [], false))
  {
    QueryLaws.EmptyCollections(map[], Env(v => "", (p, s) => None, v => Calendar.Epoch), utcOffset);
    var w := "SELECT " + table + ".* " + "" + " FROM " + table + " " + "" + " WHERE " + "1" + " " + "";
    StatementText(table);
    assert Assemble(table, "", "", "1", "") == w;
  }

  lemma StatementText(table: string)
    ensures "SELECT " + table + ".* " + "" + " FROM " + table + " " + "" + " WHERE " + "1" + " " + "" ==
            "SELECT " + table + ".*  FROM " + table + "  WHERE 1 "
  {
    assert ".* " + " FROM " == ".*  FROM ";
    assert " " + " WHERE " + "1" + " " == "  WHERE 1 ";
  }

  /** A sort order whose `order_clause()` raises makes `build_sql` raise,
      whatever the query. */
  lemma SortErrorPropagates(table: string, q: Query, s: Sort, utcOffset: int)
    requires OrderOf(s).Err?
    ensures BuildSql(table, q, OrderSort(s), utcOffset) == Err(OrderOf(s).error)
  {
  }

  /** The statement has exactly as many `?` placeholders as bound values,
      when no name it is built from contains a `?`. */
  lemma StatementPlaceholders(table: string, q: Query, order: SortOrder, utcOffset: int)
    requires '?' !in table && QueryLaws.PlainFields(q)
    requires SortParts(order).Ok?
    requires '?' !in SortParts(order).value.0 + SortParts(order).value.1 + SortParts(order).value.2
    ensures var r := BuildSql(table, q, order, utcOffset);
      r.Ok? && QueryLaws.QCount(r.value.sql) == |r.value.subvals|
  {
    var parts := SortParts(order).value;
    WherePlaceholders(q, utcOffset);
    AssembleCount(table, parts.0, parts.1, WhereText(Clause(q, utcOffset)), parts.2);
  }

  /** `where or '1'` has one `?` per bound value. */
  lemma WherePlaceholders(q: Query, utcOffset: int)
    requires QueryLaws.PlainFields(q)
    ensures var c := Clause(q, utcOffset); QueryLaws.QCount(WhereText(c)) == |c.subvals|
  {
    var c := Clause(q, utcOffset);
    QueryLaws.Placeholders(q, utcOffset);
    QueryLaws.RefusalBindsNothing(q, utcOffset);
    if c.text == Some("") {
      assert QueryLaws.QCount("") == 0;
    } else if c.text.None? {
      assert QueryLaws.QCount("1") == 0;
    }
  }

  /** Only the query's `WHERE` text contributes placeholders. */
  lemma AssembleCount(table: string, select: string, union: string, where: string, o: string)
    requires '?' !in table && '?' !in select + union + o
    ensures QueryLaws.QCount(Assemble(table, select, union, where, o)) == QueryLaws.QCount(where)
  {
    assert '?' !in select && '?' !in union && '?' !in o by {
      assert select + union + o == select + (union + o);
    }
    var pre := "SELECT " + table + ".* " + select + " FROM " + table + " " + union + " WHERE ";
    var post := " " + o;
    assert '?' !in pre;
    assert '?' !in post;
    assert Assemble(table, select, union, where, o) == pre + where + post;
  }
}
