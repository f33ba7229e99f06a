/** JavaScript values as they occur in the predefine configuration: the
    values of localized fields, of relation descriptors and of the parsed
    relation configuration. */
module JsValues {

  /** A JavaScript value. `Record` holds a nested object literal as an
      ordered list of properties; `ObjectId` stands for the Mongoose `ObjectId` schema
      type, a function value. Numbers are integers here. */
  datatype Value =
    | Undefined
    | Null
    | Bool(b: bool)
    | Num(n: int)
    | Str(s: string)
    | Arr(items: seq<Value>)
    | Record(fields: seq<(string, Value)>)
    | ObjectId

  /** JavaScript truthiness, as used by `a || b`: the falsy values are
      undefined, null, false, 0 and the empty string (there is no NaN or
      `-0` among the values here). */
  predicate Truthy(v: Value): (r: bool)
    ensures !r <==> v in {Undefined, Null, Bool(false), Num(0), Str("")}
  {
    match v
    case Undefined => false
    case Null => false
    case Bool(b) => b
    case Num(n) => n != 0
    case Str(s) => s != ""
    case _ => true
  }

  /** `isNotValue`: the value is null or undefined. Both are falsy, so a
      value that is not a value never wins an `||`. */
  predicate IsNotValue(v: Value): (r: bool)
    ensures r ==> !Truthy(v)
  {
    v.Undefined? || v.Null?
  }
}
