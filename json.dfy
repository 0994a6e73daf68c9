/**
 * The values `res.json()` decodes a calendar response into, and the few JavaScript
 * operations the availability check applies to them: reading a property, the
 * truthiness `||` tests, and strict equality with a string.
 */
module JsonValues {

  /** A decoded JSON value.  `Undefined` is what reading a missing property yields;
      JSON itself never produces it.  A number is a `real`: a literal too large for a
      double, which `JSON.parse` turns into Infinity, is not represented, which is
      harmless because the only use of a number here is its truthiness, and an infinite
      number is as truthy as a large finite one. */
  datatype Json =
    | Undefined
    | Null
    | Bool(b: bool)
    | Num(n: real)
    | Str(s: string)
    | Arr(items: seq<Json>)
    | Obj(fields: map<string, Json>)

  /** Reading `v.key` throws a TypeError exactly on null and undefined. */
  predicate IsNullish(v: Json) {
    v.Undefined? || v.Null?
  }

  /** `v.key` for a value that is not nullish: an object's own property, and undefined for
      everything else (strings, numbers, booleans and arrays have no such data property). */
  function Get(v: Json, key: string): Json {
    match v
    case Obj(fields) => if key in fields then fields[key] else Undefined
    case _ => Undefined
  }

  /** ECMAScript ToBoolean: what `a || b` tests to decide whether to keep `a`.  Every
      array and object is truthy, the empty array included. */
  predicate Truthy(v: Json) {
    match v
    case Undefined => false
    case Null => false
    case Bool(b) => b
    case Num(n) => n != 0.0
    case Str(s) => s != ""
    case Arr(_) => true
    case Obj(_) => true
  }
}
