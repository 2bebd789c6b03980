/** Values shared by every script: Python's None-or-value, the cells of a
    provider attribute bag, and the outcome of a per-ticker provider lookup. */
module Values {

  datatype Option<+T> = None | Some(value: T)

  /** A value held in a provider attribute bag or in a table cell:
      a string, a number, or Python's None. */
  datatype Value = Str(s: string) | Num(x: real) | Null

  /** The outcome of `yf.Ticker(t).info`: the attribute bag, or an exception. */
  datatype Lookup = Info(bag: map<string, Value>) | Threw

  /** Python's `d.get(key, default)`. */
  function Get(bag: map<string, Value>, key: string, default: Value): Value {
    if key in bag then bag[key] else default
  }

  /** Python's truth value of a bag value: non-empty strings and non-zero numbers are true. */
  predicate Truthy(v: Value) {
    match v
    case Str(s) => s != ""
    case Num(x) => x != 0.0
    case Null => false
  }
}
