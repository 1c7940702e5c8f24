/** Names and versions of packages, and places in the publishing order. */
module PackageOrder {
  datatype Identity = Identity(name: string, version: string)

  ghost predicate Distinct(names: seq<string>)
  {
    forall i, j | 0 <= i < j < |names| :: names[i] != names[j]
  }

  /** The first place of a name in a list, or -1. */
  function IndexOf(names: seq<string>, name: string): (i: int)
    ensures -1 <= i < |names|
    ensures if i < 0 then name !in names else names[i] == name
    ensures forall j | 0 <= j < i :: names[j] != name
  {
    if names == [] then -1
    else if names[0] == name then 0
    else
      var i := IndexOf(names[1..], name);
      if i < 0 then -1 else i + 1
  }
}
