/** Shared value types of the query model: optional values, results that carry
    the exceptions the query module raises, and the values that records hold and
    that compiled clauses bind as positional parameters. */
module Base {

  datatype Option<T> = None | Some(value: T)

  /** A computation that either returns a value or raises one of the modelled exceptions. */
  datatype Result<T> = Ok(value: T) | Err(error: Error)

  /** The exceptions the modelled code raises. */
  datatype Error =
    | DateFormatError   // Period.parse: three or more dashes (ValueError)
    | DateParseError    // datetime.strptime rejects the text (ValueError)
    | DateRangeError    // date.replace / date + timedelta leave datetime's range (ValueError, OverflowError)
    | IntervalError     // DateInterval: start is not before end (ValueError)
    | AttributeError    // SmartArtistSort.order_clause reads model_cls_fields
    | IndexError        // list index out of range

  newtype byte = x: int | 0 <= x < 256

  /** A field value of a record, or a bound parameter of a compiled clause. */
  datatype Value = Null | Int(i: int) | Str(s: string) | Bytes(b: seq<byte>)

  /** A record: field name to value. `item.get(field)` is `Get`. */
  type Item = map<string, Value>

  function Get(item: Item, field: string): Value {
    if field in item then item[field] else Null
  }
}
