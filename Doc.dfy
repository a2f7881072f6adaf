/** The nested, order-preserving values that synthesis produces and that the
    external YAML emitter renders. The `any`-typed payloads of the source
    (inputs, matrices, trigger bodies, container records) are values of this
    type that are copied through unchanged. */
module Doc {
  import opened Wrappers

  datatype Value =
    | Str(str: string)
    | Num(num: int)
    | Bool(flag: bool)
    | Arr(items: seq<Value>)
    | Obj(fields: seq<(string, Value)>)

  /** JavaScript truthiness. Arrays and objects are truthy even when empty. */
  predicate Truthy(v: Value)
  {
    match v
    case Str(s) => s != ""
    case Num(n) => n != 0
    case Bool(b) => b
    case _ => true
  }

  /** `if (this.x) result.k = this.x` for an optional string: undefined and
      the empty string are both left out. */
  function IfNonEmpty(o: Option<string>): Option<Value>
  {
    if o.Some? && o.value != "" then Some(Str(o.value)) else None
  }

  /** `if (this.x !== undefined)` for an optional boolean: `false` is kept. */
  function IfDefinedBool(o: Option<bool>): Option<Value>
  {
    if o.Some? then Some(Bool(o.value)) else None
  }

  /** `if (this.x !== undefined)` for an optional number: `0` is kept. */
  function IfDefinedNum(o: Option<int>): Option<Value>
  {
    if o.Some? then Some(Num(o.value)) else None
  }

  function Strings(ss: seq<string>): seq<Value>
  {
    seq(|ss|, i requires 0 <= i < |ss| => Str(ss[i]))
  }
}
