/**
 * The JavaScript values that cross the boundaries of the crawler's components: ids handed to
 * the corpus accessor and to the workers, message fields, and the ids stored in the
 * visited set. Only what the core inspects is kept: whether a value is a string, its
 * truthiness, and an object's `docid` property.
 */
module Js {

  datatype JsValue =
    | Undefined
    | Null
    | Num(n: int)
    | Str(s: string)
    | Arr(items: seq<JsValue>)
      /** Any object; `docid` is the value of its `docid` property (Undefined when it has none). */
    | Obj(docid: JsValue)

  /** JavaScript truthiness: `undefined`, `null`, `0` and `""` are falsy; objects and arrays are truthy. */
  predicate Truthy(v: JsValue)
  {
    match v
    case Undefined => false
    case Null => false
    case Num(n) => n != 0
    case Str(s) => s != ""
    case Arr(_) => true
    case Obj(_) => true
  }

  /** The guard `!docid || typeof docid !== "string"` both id checks of the core use, negated. */
  predicate IsValidId(v: JsValue)
  {
    Truthy(v) && v.Str?
  }
}
