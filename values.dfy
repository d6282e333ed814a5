/** The JSON-like values the helpers of index.js work on, and the host
    facilities (Date parsing, time-zone dependent date text, the RegExp
    compiler, the numeric parsers) they call but do not define. */
module Values {

  datatype Option<T> = None | Some(value: T)

  /** A JavaScript value as seen by `for…in`, `typeof` and `String()`.
      Numbers are integers. An object is the list of its own enumerable
      properties in enumeration order; an array the list of its elements. */
  datatype Value =
    | Null
    | Undef
    | Bool(b: bool)
    | Num(n: int)
    | Str(s: string)
    | Arr(items: seq<Value>)
    | Obj(fields: seq<Field>)
    | Date(time: int)
    | Regex(pattern: string, flags: string)

  datatype Field = Field(key: string, val: Value)

  /** What the host provides and the model cannot compute itself. */
  datatype Host = Host(
    // Date.parse: None stands for NaN
    dateParse: string -> Option<int>,
    // String(date) for a time value: it depends on the host's time zone
    dateText: int -> string,
    // whether `new RegExp(pattern, flags)` accepts the pattern text
    patternOk: string -> bool,
    // parseInt(v), parseFloat(v) and new Date(v), used by convert
    parseInt: Value -> Value,
    parseFloat: Value -> Value,
    newDate: Value -> Value)

  /** Arrays and plain objects: the values `for…in` walks slot by slot. */
  predicate IsContainer(v: Value) {
    v.Arr? || v.Obj?
  }

  /** The values in the slots of a container, in `for…in` order. */
  function Kids(v: Value): (r: seq<Value>)
    ensures v.Arr? ==> r == v.items
    ensures v.Obj? ==> |r| == |v.fields| && forall i :: 0 <= i < |r| ==> r[i] == v.fields[i].val
    ensures !IsContainer(v) ==> r == []
  {
    match v
    case Arr(items) => items
    case Obj(fields) => seq(|fields|, i requires 0 <= i < |fields| => fields[i].val)
    case _ => []
  }

  /** The container `v` with its slots holding `ks` instead: keys and kind stay. */
  function Rebuild(v: Value, ks: seq<Value>): (r: Value)
    requires IsContainer(v) && |ks| == |Kids(v)|
    ensures IsContainer(r) && r.Arr? == v.Arr? && Kids(r) == ks
    ensures r.Obj? ==> forall i :: 0 <= i < |ks| ==> r.fields[i].key == v.fields[i].key
  {
    match v
    case Arr(_) => Arr(ks)
    case Obj(fields) => Obj(seq(|fields|, i requires 0 <= i < |fields| => Field(fields[i].key, ks[i])))
  }
}
