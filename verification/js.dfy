/**
 JavaScript value semantics the request handlers rely on: request-body fields that
 may be missing, truthiness, property-key coercion and the members every plain
 object literal inherits from `Object.prototype`.
 */
module Js {

  /** A request-body field as a handler reads it: missing (`undefined`) or a string. */
  datatype Value = Undefined | Str(s: string)

  /** `!v` is false exactly for a non-empty string: `undefined` and "" are falsy. */
  predicate Truthy(v: Value) {
    v.Str? && v.s != ""
  }

  /** The property key `obj[v]` uses: a string is its own key, `undefined` becomes "undefined". */
  function KeyOf(v: Value): string {
    match v
    case Undefined => "undefined"
    case Str(s) => s
  }

  /** Names every object literal inherits from `Object.prototype`; each reads as a truthy value. */
  const ObjectPrototypeKeys: set<string> := {
    "constructor", "__proto__", "__defineGetter__", "__defineSetter__",
    "__lookupGetter__", "__lookupSetter__", "hasOwnProperty", "isPrototypeOf",
    "propertyIsEnumerable", "toLocaleString", "toString", "valueOf"
  }

  /** What `obj[key]` finds on an object literal whose own properties are `obj`. */
  datatype Prop<V> = Own(value: V) | Inherited | Absent

  function Get<V>(obj: map<string, V>, key: string): Prop<V> {
    if key in obj then Own(obj[key])
    else if key in ObjectPrototypeKeys then Inherited
    else Absent
  }

  /** `obj[key] = v` for a primitive `v`: the inherited `__proto__` setter ignores primitives. */
  function Assign<V>(obj: map<string, V>, key: string, v: V): map<string, V> {
    if key == "__proto__" then obj else obj[key := v]
  }

  /** Reading an own property is what a plain dictionary lookup does. */
  lemma GetOwnOffPrototype<V>(obj: map<string, V>, key: string, v: V)
    requires key !in ObjectPrototypeKeys
    ensures Get(obj, key) == (if key in obj then Own(obj[key]) else Absent)
    ensures Assign(obj, key, v) == obj[key := v]
  {
  }
}
