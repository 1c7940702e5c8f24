/** JSON values as the schema interpreter sees them, and pointers into them. */
module JsonPointer {
  import opened Sequences
  import opened Wrappers
  import opened HostObjects
  import opened Strings

  datatype Field = Field(key: string, value: Json)

  /** Foreign stands for the functions that every object inherits, and Prototype for the object that has them. */
  datatype Json =
    | Null
    | Bool(truth: bool)
    | Num(number: real)
    | Str(text: string)
    | Arr(items: seq<Json>)
    | Obj(fields: seq<Field>)
    | Foreign
    | Prototype

  function Own(fields: seq<Field>, key: string): Option<Json>
  {
    if fields == [] then None else if fields[0].key == key then Some(fields[0].value) else Own(fields[1..], key)
  }

  predicate IsObject(j: Json)
  {
    j.Obj? || j.Prototype?
  }

  /** The fields that a schema can have written in an object. */
  function FieldsOf(j: Json): seq<Field>
  {
    if j.Obj? then j.fields else []
  }

  /** Reading a property of an object with some fields of its own. */
  function Lookup(fields: seq<Field>, key: string, inherited: set<string>): Option<Json>
  {
    if Own(fields, key).Some? then Own(fields, key)
    else if key !in inherited then None
    else if key == "__proto__" then Some(Prototype)
    else Some(Foreign)
  }

  /** Reading a property of any object. The prototype has no prototype: it answers with null. */
  function Property(j: Json, key: string, inherited: set<string>): Option<Json>
    requires IsObject(j)
  {
    if j.Prototype? && key == "__proto__" then Some(Null) else Lookup(FieldsOf(j), key, inherited)
  }

  // ----- Escaping of reference tokens

  /** Replacing each tilde that is followed by a certain character. */
  function ReplaceTilde(s: string, second: char, replacement: char): string
  {
    if s == "" then ""
    else if |s| > 1 && s[0] == '~' && s[1] == second then [replacement] + ReplaceTilde(s[2..], second, replacement)
    else [s[0]] + ReplaceTilde(s[1..], second, replacement)
  }

  function Unescape(s: string): string
  {
    ReplaceTilde(ReplaceTilde(s, '1', '/'), '0', '~')
  }

  /** The escaping of section 4 of RFC 6901. */
  function Escape(s: string): string
  {
    if s == "" then ""
    else if s[0] == '~' then "~0" + Escape(s[1..])
    else if s[0] == '/' then "~1" + Escape(s[1..])
    else [s[0]] + Escape(s[1..])
  }

  /** Only the tildes escaped. */
  function EscapeTildes(s: string): string
  {
    if s == "" then "" else (if s[0] == '~' then "~0" else [s[0]]) + EscapeTildes(s[1..])
  }

  lemma {:induction false} EscapeStart(s: string)
    ensures '/' !in Escape(s)
    ensures s != "" ==> Escape(s) != "" && (s[0] != '~' && s[0] != '/' ==> Escape(s)[0] == s[0])
  {
    if s != "" { EscapeStart(s[1..]); }
  }

  lemma TildeOne(rest: string)
    ensures ReplaceTilde("~1" + rest, '1', '/') == "/" + ReplaceTilde(rest, '1', '/')
  {
    var s := "~1" + rest;
    assert s[0] == '~' && s[1] == '1' && s[2..] == rest;
  }

  lemma TildeZero(rest: string)
    ensures ReplaceTilde("~0" + rest, '0', '~') == "~" + ReplaceTilde(rest, '0', '~')
    ensures ReplaceTilde("~0" + rest, '1', '/') == "~0" + ReplaceTilde(rest, '1', '/')
  {
    var s := "~0" + rest;
    assert s[0] == '~' && s[1] == '0' && s[2..] == rest;
    assert s[1..] == "0" + rest && ("0" + rest)[1..] == rest;
    assert ReplaceTilde("0" + rest, '1', '/') == "0" + ReplaceTilde(rest, '1', '/');
  }

  lemma PlainFirst(c: char, rest: string, second: char, replacement: char)
    requires c != '~'
    ensures ReplaceTilde([c] + rest, second, replacement) == [c] + ReplaceTilde(rest, second, replacement)
  {
    var s := [c] + rest;
    assert s[1..] == rest;
  }

  lemma {:induction false} SlashesBack(s: string)
    ensures ReplaceTilde(Escape(s), '1', '/') == EscapeTildes(s)
  {
    if s != "" {
      SlashesBack(s[1..]);
      if s[0] == '~' {
        TildeZero(Escape(s[1..]));
      } else if s[0] == '/' {
        TildeOne(Escape(s[1..]));
      } else {
        PlainFirst(s[0], Escape(s[1..]), '1', '/');
      }
    }
  }

  lemma {:induction false} TildesBack(s: string)
    ensures ReplaceTilde(EscapeTildes(s), '0', '~') == s
  {
    if s != "" {
      TildesBack(s[1..]);
      if s[0] == '~' {
        TildeZero(EscapeTildes(s[1..]));
      } else {
        PlainFirst(s[0], EscapeTildes(s[1..]), '0', '~');
      }
    }
  }

  /** The two replacements, in this order, undo the escaping of every key. */
  lemma UnescapeEscape(key: string)
    ensures Unescape(Escape(key)) == key
  {
    SlashesBack(key);
    TildesBack(key);
  }

  /** In the other order they would not: an escaped "~1" would become a slash. */
  lemma OrderOfReplacementsMatters()
    ensures ReplaceTilde(ReplaceTilde(Escape("~1"), '0', '~'), '1', '/') != "~1"
  {
    var s := "~1";
    assert s[1..] == "1" && "1"[1..] == "";
    assert Escape("1") == "1";
    assert Escape(s) == "~0" + "1";
    TildeZero("1");
    assert ReplaceTilde("", '0', '~') == "";
    PlainFirst('1', "", '0', '~');
    assert ReplaceTilde(Escape(s), '0', '~') == "~" + "1" == "~1" + "";
    TildeOne("");
  }

  // ----- Resolving a reference

  function Walk(current: Json, keys: seq<string>, inherited: set<string>): Option<Json>
    decreases keys
  {
    if keys == [] then Some(current)
    else if !IsObject(current) then None
    else
      match Property(current, keys[0], inherited)
      case None => None
      case Some(next) => Walk(next, keys[1..], inherited)
  }

  function UnescapeAll(parts: seq<string>): (keys: seq<string>)
    ensures |keys| == |parts| && forall i | 0 <= i < |parts| :: keys[i] == Unescape(parts[i])
  {
    seq(|parts|, i requires 0 <= i < |parts| => Unescape(parts[i]))
  }

  /** None stands for the error of an unsupported or unresolved reference. */
  function Resolve(root: Json, reference: string, inherited: set<string>): Option<Json>
  {
    if !StartsWith(reference, "#/") then None
    else Walk(root, UnescapeAll(Split(reference[2..], '/')), inherited)
  }

  method ResolveJsonPointer(root: Json, reference: string, inherited: set<string>) returns (resolved: Option<Json>)
    ensures resolved == Resolve(root, reference, inherited)
  {
    if !StartsWith(reference, "#/") { return None; }
    var current := root;
    var parts := Split(reference[2..], '/');
    ghost var keys := UnescapeAll(parts);
    for i := 0 to |parts|
      invariant Walk(root, keys, inherited) == Walk(current, keys[i..], inherited)
    {
      var part := Unescape(parts[i]);
      if !IsObject(current) { return None; }
      var next := Property(current, part, inherited);
      if next.None? { return None; }
      assert keys[i..][1..] == keys[i + 1..];
      current := next.value;
    }
    resolved := Some(current);
  }

  function EscapeAll(keys: seq<string>): (parts: seq<string>)
    ensures |parts| == |keys| && forall i | 0 <= i < |keys| :: parts[i] == Escape(keys[i])
  {
    seq(|keys|, i requires 0 <= i < |keys| => Escape(keys[i]))
  }

  /** The reference written for a list of keys leads to what these keys lead to, whatever characters they hold. */
  lemma ReferenceResolves(root: Json, keys: seq<string>, inherited: set<string>)
    requires keys != []
    ensures Resolve(root, "#/" + Join(EscapeAll(keys), '/'), inherited) == Walk(root, keys, inherited)
  {
    var parts := EscapeAll(keys);
    var reference := "#/" + Join(parts, '/');
    PrefixOf("#/", Join(parts, '/'));
    assert reference[2..] == Join(parts, '/');
    forall i | 0 <= i < |parts|
      ensures '/' !in parts[i] && Unescape(parts[i]) == keys[i]
    {
      EscapeStart(keys[i]);
      UnescapeEscape(keys[i]);
    }
    SplitJoined(parts, '/');
    assert UnescapeAll(parts) == keys;
  }

  /** The prototype of the prototype is null. */
  lemma PrototypeEnds(root: Json)
    requires root.Obj? && Own(root.fields, "__proto__").None?
    ensures Walk(root, ["__proto__"], INHERITED) == Some(Prototype)
    ensures Walk(root, ["__proto__", "__proto__"], INHERITED) == Some(Null)
  {
    var keys := ["__proto__", "__proto__"];
    assert keys[1..] == ["__proto__"];
    assert "__proto__" in INHERITED;
  }
}
