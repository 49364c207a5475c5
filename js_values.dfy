/** The scalar values a dashboard record or a filter selection can hold, and
    JavaScript truthiness over them, which drives every guard in the client code. */
module JsValues {

  /** A field value: a string, an integer (years, counts, codes) or a missing
      field (`undefined`). */
  datatype Value = Str(s: string) | Num(n: int) | Absent

  /** A flat JSON record: field name to value; a name not in the map reads as `undefined`. */
  type Record = map<string, Value>

  /** JavaScript truthiness: `undefined`, `""` and `0` are falsy, everything else is truthy. */
  predicate Truthy(v: Value) {
    match v
    case Str(s) => s != ""
    case Num(n) => n != 0
    case Absent => false
  }

  /** `record[key]`: the field's value, or `undefined` when the record lacks it. */
  function Field(r: Record, key: string): Value {
    if key in r then r[key] else Absent
  }

  /** A value that may be `null`/`undefined` as a whole (an optional-chaining receiver). */
  datatype Option<T> = None | Some(value: T)
}
