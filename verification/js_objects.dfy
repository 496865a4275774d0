/** Facts about plain JavaScript objects used as dictionaries. */
module JsObjects {

  /** Names every `{}` literal answers through `Object.prototype`: a lookup
      `obj[name]` on an empty object literal yields a truthy value for each. */
  const PrototypeNames: set<string> := {
    "constructor", "hasOwnProperty", "isPrototypeOf", "propertyIsEnumerable",
    "toLocaleString", "toString", "valueOf", "__proto__",
    "__defineGetter__", "__defineSetter__", "__lookupGetter__", "__lookupSetter__"
  }
}
