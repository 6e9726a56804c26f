/**
 * The few JavaScript value rules the handlers depend on: truthiness of the
 * request fields, the `a || b` fallback, and property lookup on an object
 * literal, which also finds the members every object inherits.
 */
module Js {
  import opened Wrappers

  /** A numeric body field: `None` is undefined, null or NaN; `!v` holds for those and for 0. */
  predicate TruthyNum(v: Option<int>) {
    v.Some? && v.value != 0
  }

  /** A text body field: `!v` holds for undefined, null and the empty string. */
  predicate TruthyStr(v: Option<string>) {
    v.Some? && v.value != ""
  }

  /** `a || b` where `b` is a number that is always present. */
  function OrNum(a: Option<int>, b: int): (r: int)
    ensures TruthyNum(a) ==> r == a.value
    ensures !TruthyNum(a) ==> r == b
  {
    if TruthyNum(a) then a.value else b
  }

  /** `a || b` on text values. */
  function OrStr(a: Option<string>, b: string): (r: string)
    ensures TruthyStr(a) ==> r == a.value
    ensures !TruthyStr(a) ==> r == b
  {
    if TruthyStr(a) then a.value else b
  }

  /**
   * The property names a plain object literal inherits from Object.prototype.
   * Looking one of them up yields a function (or, for `__proto__`, an object),
   * which is truthy.
   */
  const InheritedKeys: set<string> := {
    "constructor", "hasOwnProperty", "isPrototypeOf", "propertyIsEnumerable",
    "toLocaleString", "toString", "valueOf", "__proto__",
    "__defineGetter__", "__defineSetter__", "__lookupGetter__", "__lookupSetter__"
  }

  /** What `obj[key]` evaluates to for an object literal mapping strings to strings. */
  datatype Value = Undefined | Str(s: string) | Inherited(name: string)

  predicate Truthy(v: Value) {
    match v
    case Undefined => false
    case Str(s) => s != ""
    case Inherited(_) => true
  }

  /** `obj[key]` where `own` holds the literal's own properties. */
  function Lookup(own: map<string, string>, key: string): Value {
    if key in own then Str(own[key])
    else if key in InheritedKeys then Inherited(key)
    else Undefined
  }
}
