/** Values produced by Python's `json.loads`, and Python truthiness on them.
    A decoded JSON `null` and Python's `None` are the same value, `JNull`. */
module Json {

  datatype Value =
    | JNull
    | JBool(b: bool)
    | JNumber(n: real)
    | JString(s: string)
    | JArray(items: seq<Value>)
    | JObject(fields: map<string, Value>)

  /** Python's `bool(v)`: None, False, 0, "", [] and {} are falsy. */
  predicate Truthy(v: Value)
  {
    match v
    case JNull => false
    case JBool(b) => b
    case JNumber(n) => n != 0.0
    case JString(s) => s != ""
    case JArray(items) => items != []
    case JObject(fields) => fields != map[]
  }

  /** `type(v).__name__` of the Python object `json.loads` gives for `v`. A
      number is named `int` when it is integral and `float` otherwise (an
      integral number written as `85.0` is a `float` in Python; the model does
      not keep how a number was written). */
  function PyTypeName(v: Value): (name: string)
    ensures v.JString? <==> name == "str"
    ensures v.JNull? <==> name == "NoneType"
  {
    match v
    case JNull => "NoneType"
    case JBool(_) => "bool"
    case JNumber(n) => if n.Floor as real == n then "int" else "float"
    case JString(_) => "str"
    case JArray(_) => "list"
    case JObject(_) => "dict"
  }
}
