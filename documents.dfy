/** JSON values as they arrive in a request body or sit in a hotel record. */
module Documents {
  import opened Wrappers

  /** A JSON value. Numbers are kept exact; JSON cannot carry NaN or infinities. */
  datatype Value =
    | Str(text: string)
    | Num(number: real)
    | Bool(flag: bool)
    | Null
    | Arr(items: seq<Value>)
    | Obj(members: map<string, Value>)

  /** A JSON object: member names to values (a repeated name keeps its last value). */
  type Body = map<string, Value>

  /** `body[name]`: `None` is `undefined`, the result for a missing member. */
  function Member(body: Body, name: string): (v: Option<Value>)
    ensures v.Some? <==> name in body
  {
    if name in body then Some(body[name]) else None
  }

  /** JavaScript truthiness: `undefined`, `null`, `false`, `0` and `""` are falsy. */
  predicate Truthy(v: Option<Value>) {
    match v
    case None => false
    case Some(Str(t)) => t != ""
    case Some(Num(x)) => x != 0.0
    case Some(Bool(b)) => b
    case Some(Null) => false
    case Some(Arr(_)) => true
    case Some(Obj(_)) => true
  }

  /** `typeof v === 'number'`. */
  predicate IsNumber(v: Option<Value>) { v.Some? && v.value.Num? }

  /** `Array.isArray(v)`. */
  predicate IsArray(v: Option<Value>) { v.Some? && v.value.Arr? }
}
