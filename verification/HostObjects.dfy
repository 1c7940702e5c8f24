/** What plain objects of the host language answer to. */
module HostObjects {
  /** The names that every object inherits: the `in` operator and property reads find them on the prototype. */
  const INHERITED: set<string> :=
    {"constructor", "hasOwnProperty", "isPrototypeOf", "propertyIsEnumerable", "toLocaleString", "toString", "valueOf",
     "__proto__", "__defineGetter__", "__defineSetter__", "__lookupGetter__", "__lookupSetter__"}
}
