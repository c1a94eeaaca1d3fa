# beets `dbcore` query and sort compiler, in Dafny

This project models the query and sort compiler of the beets music library's
database layer (`beets/dbcore/query.py`). A query tree means two things at once:

- **Compiled.** `clause()` gives a SQL `WHERE` fragment and its positional
  parameters, or `(None, ())` to refuse. A refusal sends the caller to the slow
  path.
- **In memory.** `match(item)` tests one record.

Sorts give `SELECT`, `LEFT JOIN` and `ORDER BY` fragments. `build_sql` puts a
query and a sort order together into one statement.

The model is split into modules:

- `Base`: values, records and errors.
- `Text`: Python string operations used by the source: `split(sep, 1)`, `join`,
  `replace`, `lower`, `int()`, `str()`.
- `Like`: SQLite's `LIKE ... ESCAPE '\'`, which folds the case of ASCII letters only.
- `Calendar`: `datetime` dates, ordinals and epoch seconds.
- `Periods`: `Period`, `DateInterval` and `_parse_periods`.
- `Queries`: the query tree, `clause()` as `Clause` and `match()` as `Matches`.
  It also holds the leaf constructors, the `clause_with_joiner` loop and
  `AnyFieldQuery`'s loops.
- `Collections`: `MutableCollectionQuery` as a class whose subquery list is
  edited in place.
- `Sorts`: the sort classes, plus `MultipleSort` as a class with its three
  clause loops.
- `Statements`: `build_sql`.
- `QueryLaws` and `SortLaws`: the properties that relate several operations.

Things outside the engine become parameters:

- `util.as_string` and `re.search` are `Env` fields.
- `datetime.utcfromtimestamp` is also an `Env` field, reduced to the calendar day it gives.
- `util.str2bool` is a function argument.
- The local time zone's offset at the epoch, which `_to_epoch_time` reads, is
  an integer `utcOffset`.
- `model_cls._table`, `_flex_table` and `_fields` are plain strings and sets.

Three behaviours of the code are easy to miss. The model follows the code:

- **Selects and orders stop at the first `None`.** `select_clause` breaks at
  the first criterion without a select fragment (lines 544-547), exactly as
  `order_clause` does for the `ORDER BY` part (lines 575-577). A fixed-field
  sort has no select fragment, so it cuts off the `flex_` columns of the
  criteria after it while the order still names them (`SortLaws.FixedBeforeFlexSelect`).
- **The smart-artist sort on a model without `albumartist_sort`.** It raises
  AttributeError: line 651 reads `self.model_cls_fields`, so the
  `else: return ""` branch at lines 654-655 is unreachable.
- **An empty `AndQuery`/`OrQuery` compiles to `''`.** `build_sql` turns that
  into `WHERE 1` and reports the statement as not slow. In memory an empty
  `OrQuery` matches nothing (`Statements.EmptyCollectionNotSlow`).

Compiled and in-memory evaluation agree for every fast numeric leaf on every
integer value (`QueryLaws.NumericAgrees`). They agree for fast date leaves
when local time is UTC (`QueryLaws.DateAgrees`). For every nonzero offset of
at most a day they disagree on a record stamped next to a new year
(`QueryLaws.DateZoneDisagreement`). Fast substring leaves agree when pattern
and value are ASCII (`QueryLaws.SubstringAgrees`). Beyond ASCII they can
disagree, because Python's `lower` folds `É` to `é` and SQLite's LIKE does not
(`QueryLaws.SubstringDisagreement`).

## Model

| member | source | states |
|---|---|---|
| Queries.ClauseWithJoiner | beets/dbcore/query.py:255-269 | the loop returns `(None, ())` as soon as a child clause is falsy, and otherwise the parenthesized child clauses joined by ` joiner ` with their parameters concatenated in child order (equal to `JoinClauses` of the children's clauses) |
| QueryLaws.SlowLeafRefuses | beets/dbcore/query.py:54-62 | a leaf whose `fast` is false, and a regexp leaf (no `col_clause`), compile to `(None, ())` |
| QueryLaws.RefusalPropagates | beets/dbcore/query.py:261-265 | one falsy child clause, `None` or `''`, makes an and/or/any-field collection refuse outright: there is no partial push-down |
| QueryLaws.CollectionCompiles | beets/dbcore/query.py:255-269 | a collection compiles exactly when no child clause is falsy (both directions) |
| QueryLaws.EmptyCollections | beets/dbcore/query.py:308-323 | empty `AndQuery` and `OrQuery` compile to `''` with no parameters; the empty `AndQuery` matches every record and the empty `OrQuery` none; an empty collection inside another collection makes the outer one refuse |
| QueryLaws.RefusalBindsNothing | beets/dbcore/query.py:57-62 | a clause without text carries no parameters |
| QueryLaws.ConstantQueries | beets/dbcore/query.py:326-341 | `TrueQuery` compiles to `1` and `FalseQuery` to `0` without values; the store selects every record by the first and none by the second, as their `match` does |
| QueryLaws.FastLeafClauses | beets/dbcore/query.py:54-78 | a fast leaf compiles to its `col_clause`: `field = ?` over the pattern for an exact match, the escaped LIKE pattern for a substring, a refusal for a regexp, the numeric and date comparisons |
| QueryLaws.JoinClausesShapes | beets/dbcore/query.py:255-269 | joining no children gives `''`, one child `(c)`, two children `(a) joiner (b)` with their values in order, and a child clause `''` refuses |
| QueryLaws.AndMatchSplit | beets/dbcore/query.py:313-314 | a conjunction over two lists is the conjunction of the two, and a conjunction of one child tests that child |
| QueryLaws.OrMatchSplit | beets/dbcore/query.py:322-323 | a disjunction over two lists is the disjunction of the two, and a disjunction of one child tests that child |
| QueryLaws.Placeholders | beets/dbcore/query.py:255-269 | every compiled clause has exactly as many `?` placeholders as parameters, so positional binding lines up (no field name holding `?`) |
| QueryLaws.ChildrenPlaceholders | beets/dbcore/query.py:259-269 | joining children with ` and `/` or ` keeps the placeholder count equal to the concatenated parameter count |
| QueryLaws.LeafPlaceholders | beets/dbcore/query.py:77-78 | each leaf's `col_clause` has one `?` per parameter |
| QueryLaws.NumericPlaceholders | beets/dbcore/query.py:219-231 | the numeric clause has one `?` per bound it binds |
| QueryLaws.DatePlaceholders | beets/dbcore/query.py:481-499 | the date clause has one `?` per interval end it binds |
| Queries.NumericColClause | beets/dbcore/query.py:219-231 | `field=?` with the point when a point is set; otherwise one parameter per present bound, minimum first and maximum last; `'1'` exactly when no parameter is bound |
| Queries.DateColClause | beets/dbcore/query.py:481-499 | at most the comparisons `>= ?` then `< ?`, joined by ` AND `, binding the epoch seconds of start then end; `'1'` exactly when neither end is present |
| QueryLaws.DateBoundsIncrease | beets/dbcore/query.py:485-491 | a two-sided date clause binds its bounds in increasing order, at least one day apart |
| QueryLaws.EscapeLikeIsEscapeEach | beets/dbcore/query.py:107-110 | replacing `\` first and then `%` and `_` is the same as escaping each character of the pattern on its own |
| QueryLaws.SubstringAgrees | beets/dbcore/query.py:104-118 | on an ASCII pattern and an ASCII value, SQLite's LIKE on the bound `%escaped%` parameter holds exactly when `string_match` (`pattern.lower() in value.lower()`) does |
| QueryLaws.SubstringClause | beets/dbcore/query.py:104-114 | a fast substring leaf compiles to `field like ? escape '\'` with the single parameter `%` + escaped pattern + `%` |
| QueryLaws.SubstringDisagreement | beets/dbcore/query.py:117-118 | for the pattern `É` and the value `é`, `string_match` holds while SQLite's LIKE on the bound parameter does not |
| QueryLaws.SubstringMatchLaws | beets/dbcore/query.py:117-118 | the empty pattern matches every value, a pattern occurring verbatim matches, and lowering the pattern or the value first changes nothing |
| Text.LowerIdempotent | beets/dbcore/query.py:118 | `lower()` applied twice is `lower()` applied once |
| QueryLaws.AsciiLowerAgrees | beets/dbcore/query.py:118 | on ASCII text Python's `lower()` and SQLite's case folding give the same string |
| QueryLaws.RegexpLeaf | beets/dbcore/query.py:122-132 | a regexp leaf refuses to compile, fast or not, and matches exactly when `re.search` finds the pattern; a pattern `re` rejects matches nothing |
| Like.LikeSubstring | beets/dbcore/query.py:111-118 | `'%' + escaped(p) + '%'` LIKE-matches `s` exactly when `p` occurs in `s` once both have their ASCII letters lowered (both directions) |
| QueryLaws.PatternLeavesAgree | beets/dbcore/query.py:135-169 | boolean and bytes leaves compile to `field = ?` over the normalized value, and match exactly the records whose field holds that value |
| Queries.NewBooleanQuery | beets/dbcore/query.py:139-143 | the pattern becomes the integer 0 or 1 (via `str2bool` for text, `int(bool)` for booleans) and an integer pattern is kept |
| Queries.NewBytesQuery | beets/dbcore/query.py:152-169 | a bytes leaf is an always-fast exact match on the raw bytes |
| Queries.NewNumericQuery | beets/dbcore/query.py:190-203 | without `..` only `point` is set, to `int()` of the whole pattern; with `..` `point` is `None` and the bounds are `int()` of the text before and after the first `..` |
| Text.SplitOnce | beets/dbcore/query.py:193 | `split('..', 1)` gives one part exactly when the separator is absent, and otherwise the text before its first occurrence and the rest |
| QueryLaws.SplitAtFirstRange | beets/dbcore/query.py:193 | a pattern `a..b` whose `a` has no dot splits into `a` and `b` |
| QueryLaws.NumericPointPattern | beets/dbcore/query.py:193-198 | the text of an integer `n` makes a leaf with point `n` and no bounds |
| QueryLaws.NumericRangePattern | beets/dbcore/query.py:199-203 | `a..b`, `a..` and `..b` set exactly the bounds written, each parsed on its own, and no point |
| Text.ParseIntRoundTrip | beets/dbcore/query.py:177-183 | `int(str(n)) == n` for every integer |
| QueryLaws.NumericAgrees | beets/dbcore/query.py:205-231 | for every integer value, the store selects the record by the compiled clause exactly when `match` holds: equality with the point, else each present bound, else always |
| QueryLaws.MissingNumericValue | beets/dbcore/query.py:205-216 | a missing value compares as Python 2 `None`: below every minimum, within every maximum, and unequal to every point |
| QueryLaws.NumericTextValue | beets/dbcore/query.py:205-217 | a text field is converted before comparing: the text of `n` matches exactly as the integer `n`, and text that is not an integer matches exactly as a missing value |
| Text.ParseIntEdges | beets/dbcore/query.py:177-188 | `int()` skips leading white space, reads a `+` sign and skips white space after a sign (`- 5` is -5); the empty text, a lone `-` and `1.5` are not integers |
| QueryLaws.YearRangeScenario | beets/dbcore/query.py:190-231 | over the years 1990, 2000 and 2010, `year:1995..2005` keeps only 2000, compiled and in memory |
| Periods.ParsePeriod | beets/dbcore/query.py:392-406 | `None` exactly for the empty string; three or more dashes raise the format error; otherwise the result is `strptime` with the format the dash count picks, raising exactly when it fails, at the precision the dash count picks |
| Periods.Strptime | beets/dbcore/query.py:403-404 | `%Y` reads exactly a four-digit year; `%Y-%m` and `%Y-%m-%d` read exactly when the text splits at its dashes into fields that parse; the date is valid, has those field values, and defaults to the first day of the year or month |
| Periods.MonthDate | beets/dbcore/query.py:403-404 | `%Y-%m` reads a date exactly when both fields parse, and it is the first of that month of that year |
| Periods.DayDate | beets/dbcore/query.py:403-404 | `%Y-%m-%d` reads a date exactly when the three fields parse and the month has that day, and that is the date read |
| Periods.ParseYear | beets/dbcore/query.py:403-404 | `%Y` reads exactly four digits with a value of at least 1, and gives that value |
| Periods.ParseMonth | beets/dbcore/query.py:403-404 | `%m` reads exactly one or two digits with a value from 1 to 12, and gives that value |
| Periods.ParseDay | beets/dbcore/query.py:403-404 | `%d` reads one or two digits with a value from 1 to 31, or a space and one nonzero digit, and gives that value |
| Periods.ParseRenderRoundTrip | beets/dbcore/query.py:393-406 | `Period.parse` reads back the `%Y`, `%Y-%m` or `%Y-%m-%d` text of every aligned period |
| Periods.OpenRightEndpoint | beets/dbcore/query.py:408-424 | a year period ends on the same day of the next January, a month period on the same day of the next month (of the next year after December), a day period on the next day; each raises the range error exactly when that date is out of range, and the endpoint is valid and strictly later |
| Calendar.NextDayOrdinal | beets/dbcore/query.py:421-422 | `date + timedelta(days=1)` is the next ordinal, and later |
| Calendar.NextDayIsImmediate | beets/dbcore/query.py:421-422 | no date lies strictly between a date and the day after it |
| Periods.NewDateInterval | beets/dbcore/query.py:434-439 | the interval exists exactly when `start < end` or an end is missing, keeps both ends, and otherwise raises |
| Periods.FromPeriods | beets/dbcore/query.py:442-447 | the start is the start period's date and the end is the end period's open right endpoint, an endpoint error propagates, and the interval exists exactly when an end is missing or the start is before the endpoint |
| Periods.IntervalConvex | beets/dbcore/query.py:449-454 | `contains` holds for every date between two dates it holds for, and for every date when both ends are open |
| Periods.BeforeEndOfPeriod | beets/dbcore/query.py:408-424 | when a period's open right endpoint exists, a date lies before it exactly when it lies before the period or inside it |
| Periods.SinglePeriodSpan | beets/dbcore/query.py:442-454 | for a period `P` whose open right endpoint exists (a month or day period of year 9999 included), the interval of `P` alone is non-empty, contains `P`'s date, and contains exactly the dates inside `P` |
| Periods.ParsePeriods | beets/dbcore/query.py:359-370 | without `..` the one period stands for both ends and its error is raised; with `..` the text before and after the first `..` are parsed in that order, the first error raised winning; every period produced is valid |
| Periods.LastYearPeriods | beets/dbcore/query.py:408-424 | in year 9999 the periods `9999-06` and `9999-12-30` still have open right endpoints (`9999-07-01`, `9999-12-31`), while `9999-12` and the year `9999` raise the range error |
| Periods.PeriodOfDateSpan | beets/dbcore/query.py:359-370 | when a pattern parses to one period at both ends and that period's open right endpoint exists, the interval built from it exists and contains exactly the dates in that period |
| Queries.NewDateQuery | beets/dbcore/query.py:469-472 | builds the leaf exactly when the periods parse and `from_periods` succeeds, with the interval `from_periods` gives; otherwise raises the parse error, or else `from_periods`'s error |
| QueryLaws.PeriodQuery | beets/dbcore/query.py:469-477 | for a period whose open right endpoint exists, a date leaf built from the text of the period matches exactly the records whose UTC day lies in that period |
| QueryLaws.RangeQuery | beets/dbcore/query.py:469-472 | the pattern `A..B` written from two optional periods builds exactly when `from_periods` of them succeeds, with that interval |
| QueryLaws.TwoPeriodQuery | beets/dbcore/query.py:359-454 | when `B`'s open right endpoint exists, `A..B` builds exactly when `A` starts before the end of `B`, and then matches the records from the start of `A` to the end of `B` |
| QueryLaws.FromPeriodQuery | beets/dbcore/query.py:359-454 | `A..` matches every record from the start of `A` on |
| QueryLaws.UntilPeriodQuery | beets/dbcore/query.py:359-454 | when `B`'s open right endpoint exists, `..B` matches every record up to the end of `B` |
| QueryLaws.DateLeafMatches | beets/dbcore/query.py:474-477 | a date leaf matches exactly when the record's UTC day lies in its interval |
| QueryLaws.DateAgrees | beets/dbcore/query.py:474-499 | with local time equal to UTC, the store's evaluation of the compiled date clause agrees with `match` for every timestamp |
| Calendar.EpochSecondsMonotone | beets/dbcore/query.py:346-356 | a later date has at least one day more seconds since the epoch |
| Calendar.EpochSecondsStep | beets/dbcore/query.py:346-356 | the epoch is `-offset` seconds from local midnight of 1970-01-01, each day adds 86400 seconds, and the offset shifts every date alike |
| QueryLaws.DateZoneDisagreement | beets/dbcore/query.py:346-356 | for every nonzero offset of at most a day, the compiled query for a year selects a record stamped one second outside that year in UTC, which `match` rejects |
| Queries.NewLeaf | beets/dbcore/query.py:284 | `cls(field, pattern, True)` for each of the five modelled leaf classes: an exact match or substring or regexp leaf on the pattern text, a numeric leaf as `NewNumericQuery` builds it, and a date leaf as `NewDateQuery` builds it or its error |
| Queries.NewAnyFieldQuery | beets/dbcore/query.py:277-285 | one fast leaf per field, in field order; builds exactly when every leaf builds, and otherwise raises the first failing leaf's error |
| Queries.AnyFieldMatch | beets/dbcore/query.py:290-294 | the loop returns true exactly when some subquery matches |
| QueryLaws.AnyFieldClause | beets/dbcore/query.py:277-288 | each subquery is the fast leaf for its field and compiles to its column clause; a regexp any-field query over some field refuses; over no fields it compiles to `''` yet matches nothing |
| Collections.ListIndex | beets/dbcore/query.py:301-305 | Python list indexing: a key in `[-n, n)` picks `key` or `key + n`, any other key raises IndexError |
| Collections.MutableCollectionQuery.SetItem | beets/dbcore/query.py:301-302 | replaces exactly the indexed child, or raises IndexError and changes nothing |
| Collections.MutableCollectionQuery.DelItem | beets/dbcore/query.py:304-305 | removes exactly the indexed child, keeping the others in order, or raises IndexError and changes nothing |
| Collections.MutableCollectionQuery.Clause | beets/dbcore/query.py:310-311 | `clause()` of the current children, joined with `and` for an `AndQuery` and `or` for an `OrQuery` |
| Collections.ReplaceOnlyAt | beets/dbcore/query.py:301-323 | after `self[i] = q` the conjunction is `q` together with every other child, and the disjunction is `q` or any other child |
| Collections.DeleteOnlyAt | beets/dbcore/query.py:304-323 | after `del self[i]` the collection tests exactly the other children |
| Collections.ReplaceWithRefusal | beets/dbcore/query.py:301-302 | storing a refusing child at any position makes the whole collection refuse |
| Sorts.MultipleSort.AddCriteria | beets/dbcore/query.py:535-536 | appends the criterion at the end |
| Sorts.MultipleSort.SelectClause | beets/dbcore/query.py:538-553 | the loop keeps the select fragments before the first `None` and returns `""` or `", "` followed by them joined with commas |
| Sorts.SelectText | beets/dbcore/query.py:552-553 | `""` exactly when the joined fragments are empty, else `", "` followed by them |
| Sorts.UntilNonePrefix | beets/dbcore/query.py:541-548 | the kept fragments are exactly the values before the first `None` |
| Sorts.MultipleSort.UnionClause | beets/dbcore/query.py:555-566 | the loop concatenates every union fragment that is not `None` |
| Sorts.MultipleSort.OrderClause | beets/dbcore/query.py:568-582 | the loop joins with commas the order fragments before the first `None`, and an exception raised by a criterion it reaches propagates |
| Sorts.SortItems | beets/dbcore/query.py:522-525 | every sort's in-memory `sort`, the chain's (`MultipleSort.SortItemsOf`, lines 584-586) included, hands the records back unchanged |
| SortLaws.SelectStopsAtSlow | beets/dbcore/query.py:538-553 | a criterion without a select fragment ends the `SELECT` part: nothing after it contributes |
| SortLaws.OrderStopsAtSlow | beets/dbcore/query.py:568-582 | a criterion without an order fragment ends the order: nothing after it contributes and nothing after it can raise |
| SortLaws.OrderRaisesWhenReached | beets/dbcore/query.py:568-582 | a criterion that raises makes the chain raise once every criterion before it gives an order fragment |
| SortLaws.UnionSkipsSlow | beets/dbcore/query.py:555-566 | a criterion without a union fragment is skipped and the rest still contribute |
| SortLaws.SmartArtistRaises | beets/dbcore/query.py:646-660 | the smart-artist order raises exactly when the model has no `albumartist_sort`, and otherwise gives an order fragment |
| SortLaws.SmartArtistChain | beets/dbcore/query.py:568-582 | a chain of the smart-artist criterion alone orders, or raises, exactly as that criterion does |
| SortLaws.SmartArtistBehindSlow | beets/dbcore/query.py:568-582 | behind a criterion without an order fragment the smart-artist criterion is never reached: the order is the empty text and the chain cannot raise, whatever the model's fields |
| SortLaws.FixedBeforeFlexSelect | beets/dbcore/query.py:619-629 | a fixed-field criterion before a flexible one leaves the `SELECT` part empty |
| SortLaws.FixedBeforeFlexOrder | beets/dbcore/query.py:612-629 | the same chain still orders by `field ASC,flex_g ASC ` |
| SortLaws.FlexBeforeFixedSelect | beets/dbcore/query.py:596-599 | in the other order the flexible criterion's `sort_flexattr` column is selected |
| SortLaws.FlexFragmentsAgree | beets/dbcore/query.py:596-616 | a flexible-attribute criterion selects `value` of the alias `sort_flexattr<f>` its `LEFT JOIN` introduces, as `flex_<f>`, the column its order sorts by, `ASC` exactly when ascending |
| Statements.BuildSql | beets/dbcore/query.py:666-694 | the statement binds exactly the query's parameters, is slow exactly when the clause is `None`, puts `where or '1'` after `WHERE`, and raises exactly when the sort's `order_clause` raises |
| Statements.SortParts | beets/dbcore/query.py:673-684 | no order (or `''`) gives empty parts, a text gives ` ORDER BY text`, a sort gives its select, union and ` ORDER BY` order texts with `None` formatted as `None` |
| Statements.FormatOpt | beets/dbcore/query.py:683-684 | `format` writes a `None` fragment as `None` |
| Statements.WhereText | beets/dbcore/query.py:690 | a falsy clause becomes `1`, any other clause is kept |
| Statements.RefusedIsSlow | beets/dbcore/query.py:686-694 | a refusing query gives `WHERE 1`, no parameters and the slow flag |
| Statements.EmptyCollectionNotSlow | beets/dbcore/query.py:686-694 | an empty `AndQuery` or `OrQuery` gives `WHERE 1` and is not slow |
| Statements.SortErrorPropagates | beets/dbcore/query.py:681-684 | a sort whose `order_clause` raises makes `build_sql` raise, whatever the query |
| Statements.StatementPlaceholders | beets/dbcore/query.py:666-694 | the statement has exactly as many `?` as bound parameters when no table name or sort fragment contains `?` |
| Statements.AssembleCount | beets/dbcore/query.py:685-692 | the statement text holds the `?` of its `WHERE` part and no others, when the table name and sort fragments hold none |

## Left out

- Floating point: `NumericQuery._convert`'s `float()` branch, the `float(item[field])` timestamp in `DateQuery.match`, and `delta.total_seconds()`. Only integers are parsed. Non-integer text becomes `None`.
- `RegexpQuery.string_match`: the regular-expression engine is the `Env.search` parameter. An invalid pattern (`None` from `search`) does not match.
- `util.as_string` and `util.str2bool`: they are passed in, since their code is not part of this model.
- `BytesQuery`'s Python 2 `unicode`/`buffer` coercion: the pattern is taken as bytes already.
- The time zone: `_to_epoch_time` reads the local zone's offset at the epoch. This is the fixed parameter `utcOffset`, with no daylight-saving changes.
- Time of day: dates are `(year, month, day)` triples. This is exact for the model because every interval endpoint is a midnight.
- `datetime.strptime`: only the ASCII digit fields of `%Y`, `%m` and `%d` are modelled, with `datetime`'s range checks. Locale and whitespace details are not.
- Period's invalid-precision ValueError (lines 387-388 and 423-424): precisions are a three-valued datatype, so that error cannot arise.
- Text.ParseInt: reads ASCII digits and the ASCII white-space characters (space, tab, newline, carriage return, vertical tab, form feed) only. Python 2's `int()` on `unicode` text also accepts the other Unicode decimal digits and white space (`int(u'\u0662\u0660\u0660\u0660') == 2000`); the model treats such text as not an integer.
- Case folding: `Text.Lower` models Python's `lower()` for the Basic Latin and Latin-1 Supplement letters only. The case mappings of other scripts, and those that change a string's length, are not modelled. SQLite's LIKE folds ASCII letters only, and that is modelled exactly.
- QueryLaws.SubstringAgrees: stated for an ASCII pattern and value only, because beyond ASCII the compiled and in-memory tests differ (`QueryLaws.SubstringDisagreement`).
- SQL execution: the store is represented by `QueryLaws.StoreSelects`, for the comparison shapes the numeric, date, `TrueQuery` and `FalseQuery` clauses emit, and by `Like.LikeMatch`, for the substring leaf's LIKE test. Joins, `ORDER BY` and whole statements are not evaluated.
- The sequence protocol of `CollectionQuery` (`__len__`, `__getitem__`, `__iter__`, `__contains__`) and slice keys in `__setitem__`/`__delitem__`: only integer indices are modelled.
- The base `Query`/`FieldQuery` methods that raise NotImplementedError: every modelled node defines `clause` and `match`.
- `NumericQuery.match` reads the field with `getattr` and `DateQuery.match` with `item[field]`. Both are modelled as a lookup that yields `Null` for a missing field, so the AttributeError and KeyError are not modelled.
- `build_sql` with a `sort_order` that is neither falsy, a string nor a `Sort` fails with NameError. The model's `SortOrder` type rules that case out.
- `SmartArtistSort.order_clause`'s `artist_sort` and `""` branches are unreachable as written (line 651 raises first), so they are not modelled.
- Aliasing: `CollectionQuery.__init__` (lines 238-239) keeps the caller's list itself. The model holds the subqueries as a `seq` value, so a change made to that list through another reference, and the effect of `__setitem__`/`__delitem__` on the caller's list, are not modelled.
- The default `subqueries=()` is a tuple, so on an `AndQuery()` or `OrQuery()` built without arguments `__setitem__` and `__delitem__` raise TypeError. The model's subquery list is always editable, so that TypeError is not modelled.
- `AnyFieldQuery` accepts any `FieldQuery` subclass as `cls`. `LeafKind` covers the exact-match, substring, regexp, numeric and date leaves. `BooleanQuery` as `cls` is not modelled, since it converts the pattern differently (`Queries.NewBooleanQuery`). `BytesQuery` as `cls` cannot be built at all: its `__init__` (line 152) takes no `fast` argument, while line 284 passes `True`, so Python raises TypeError. That TypeError is not modelled.
