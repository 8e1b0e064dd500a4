/** The values found in a parsed Glyphs font document, before and after casting. */
module Values {

  /** A calendar date and time, the result of parsing a `date`/`lastChange` field. */
  datatype DateTime = DateTime(year: int, month: int, day: int, hour: int, minute: int, second: int)

  /** A node of the document tree. The parser produces only `Str`, `Map` and `List`;
      the converters introduce the other variants. `Real` holds a number that is not
      integral (an integral number is always an `Int`), `Null` is Python's `None`. */
  datatype Value =
    | Str(s: string)
    | Int(i: int)
    | Real(r: real)
    | Bool(b: bool)
    | Null
    | Date(dt: DateTime)
    | Map(fields: map<string, Value>)
    | List(items: seq<Value>)

  /** A number as `num` returns it: an int, or a float that is not integral. */
  predicate IsNumber(v: Value) {
    v.Int? || (v.Real? && v.r.Floor as real != v.r)
  }

  /** The number a number value stands for. */
  function NumberValue(v: Value): real
    requires IsNumber(v)
  {
    if v.Int? then v.i as real else v.r
  }
}
