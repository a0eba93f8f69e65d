/**
 * Parsed JSON values, as the request bodies and the session cookie are seen
 * after `JSON.parse`. Numbers are integers: fractional numbers are not part
 * of this model.
 */
module Json {

  datatype Value =
    | JNull
    | JBool(b: bool)
    | JNum(n: int)
    | JStr(s: string)
    | JArr(elems: seq<Value>)
    | JObj(fields: map<string, Value>)

  /**
   * Property access `v.key` on a parsed value: `Undefined` when the key is absent.
   * Reading a property of `null` throws. For a value that is not an object the
   * result is `Undefined`. That holds for the keys the model reads (`email`,
   * `studentId`, `role`), but not for built-in properties such as `length`
   * of a string or an array.
   */
  datatype Access = Undefined | Present(value: Value) | Throws

  function Get(v: Value, key: string): (r: Access)
    ensures r.Throws? <==> v.JNull?
    ensures r.Present? ==> v.JObj? && key in v.fields && r.value == v.fields[key]
    ensures v.JObj? && key in v.fields ==> r.Present?
  {
    match v
    case JNull => Throws
    case JObj(fields) => if key in fields then Present(fields[key]) else Undefined
    case _ => Undefined
  }
}
