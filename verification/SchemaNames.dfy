/** Where the interpreter and JSON Schema part: names that every object inherits, and comparison by serialised form. */
module SchemaNames {
  import opened Strings
  import opened Wrappers
  import opened HostObjects
  import opened JsonPointer
  import opened FormulaSchema

  // ----- Without inherited names the interpreter means what JSON Schema means

  predicate PlainText(t: string)
  {
    && t !in INHERITED
    && (StartsWith(t, "#/") ==> forall i | 0 <= i < |Split(t[2..], '/')| :: Unescape(Split(t[2..], '/')[i]) !in INHERITED)
  }

  /** No name in it, as a key or as a text, is one that objects inherit. */
  predicate Plain(j: Json)
  {
    match j
    case Str(t) => PlainText(t)
    case Arr(items) => forall i | 0 <= i < |items| :: Plain(items[i])
    case Obj(fields) => forall i | 0 <= i < |fields| :: fields[i].key !in INHERITED && Plain(fields[i].value)
    case Foreign => false
    case Prototype => false
    case _ => true
  }

  /** No object in it has a key that objects inherit. */
  predicate PlainKeys(j: Json)
  {
    match j
    case Arr(items) => forall i | 0 <= i < |items| :: PlainKeys(items[i])
    case Obj(fields) => forall i | 0 <= i < |fields| :: fields[i].key !in INHERITED && PlainKeys(fields[i].value)
    case _ => true
  }

  ghost predicate PlainFields(fields: seq<Field>)
  {
    forall i | 0 <= i < |fields| :: fields[i].key !in INHERITED && Plain(fields[i].value)
  }

  lemma {:induction false} OwnPlain(fields: seq<Field>, key: string)
    requires PlainFields(fields) && Own(fields, key).Some?
    ensures Plain(Own(fields, key).value)
  {
    if fields[0].key != key { OwnPlain(fields[1..], key); }
  }

  lemma LookupSame(fields: seq<Field>, key: string)
    requires key !in INHERITED
    ensures Lookup(fields, key, INHERITED) == Lookup(fields, key, {}) == Own(fields, key)
  {
  }

  lemma {:induction false} WalkSame(current: Json, keys: seq<string>)
    requires Plain(current) && forall i | 0 <= i < |keys| :: keys[i] !in INHERITED
    ensures Walk(current, keys, INHERITED) == Walk(current, keys, {})
    ensures Walk(current, keys, {}).Some? ==> Plain(Walk(current, keys, {}).value)
    decreases keys
  {
    if keys != [] && current.Obj? {
      LookupSame(current.fields, keys[0]);
      if Own(current.fields, keys[0]).Some? {
        OwnPlain(current.fields, keys[0]);
        WalkSame(Own(current.fields, keys[0]).value, keys[1..]);
      }
    }
  }

  lemma ResolveSame(root: Json, reference: string)
    requires Plain(root) && PlainText(reference)
    ensures Resolve(root, reference, INHERITED) == Resolve(root, reference, {})
    ensures Resolve(root, reference, {}).Some? ==> Plain(Resolve(root, reference, {}).value)
  {
    if StartsWith(reference, "#/") { WalkSame(root, UnescapeAll(Split(reference[2..], '/'))); }
  }

  lemma RefPlain(node: Json)
    requires Plain(node) && RefOf(node).Some?
    ensures PlainText(RefOf(node).value)
  {
    OwnPlain(node.fields, "$ref");
  }

  lemma ChildSame(fields: seq<Field>, key: string)
    requires PlainFields(fields) && key !in INHERITED
    ensures ChildOf(fields, key, INHERITED) == ChildOf(fields, key, {})
    ensures ChildOf(fields, key, {}).Against? ==> Plain(ChildOf(fields, key, {}).node)
  {
    var additional, properties := Own(fields, "additionalProperties"), PropertiesOf(fields);
    if additional.Some? { OwnPlain(fields, "additionalProperties"); }
    if Own(fields, "properties").Some? { OwnPlain(fields, "properties"); }
    LookupSame(properties, key);
    if Own(properties, key).Some? { OwnPlain(properties, key); }
  }

  lemma ObjectSame(value: Json, fields: seq<Field>, env: Env)
    requires PlainFields(fields)
    ensures ObjectHolds(value, fields, env.(inherited := INHERITED)) <==> ObjectHolds(value, fields, env.(inherited := {}))
  {
    var required := Own(fields, "required");
    if value.Obj? && required.Some? && required.value.Arr? {
      OwnPlain(fields, "required");
      forall n | n in required.value.items && n.Str?
        ensures Lookup(value.fields, n.text, INHERITED) == Lookup(value.fields, n.text, {})
      {
        var i :| 0 <= i < |required.value.items| && required.value.items[i] == n;
        assert Plain(required.value.items[i]);
        LookupSame(value.fields, n.text);
      }
    }
  }

  /** For values and schemas free of inherited names, the interpreter's reading is that of JSON Schema: only own fields count. */
  lemma {:induction false} OwnFieldsOnly(value: Json, node: Json, env: Env, rank: Rank)
    requires Acyclic(env.(inherited := INHERITED), rank) && Acyclic(env.(inherited := {}), rank)
    requires PlainKeys(value) && Plain(node) && Plain(env.root)
    ensures Satisfies(value, node, env.(inherited := INHERITED), rank) <==> Satisfies(value, node, env.(inherited := {}), rank)
    decreases value, Remaining(node, rank), 1
  {
    var full, bare := env.(inherited := INHERITED), env.(inherited := {});
    if IsObject(node) {
      if RefOf(node).Some? {
        var r := RefOf(node).value;
        RefPlain(node);
        ResolveSame(env.root, r);
        if Resolve(env.root, r, {}).Some? {
          assert NextRef(bare, r) == RefOf(Resolve(env.root, r, {}).value);
          OwnFieldsOnly(value, Resolve(env.root, r, {}).value, env, rank);
        }
      } else {
        KeywordsSame(value, FieldsOf(node), env, rank);
      }
    }
  }

  lemma {:induction false} KeywordsSame(value: Json, fields: seq<Field>, env: Env, rank: Rank)
    requires Acyclic(env.(inherited := INHERITED), rank) && Acyclic(env.(inherited := {}), rank)
    requires PlainKeys(value) && PlainFields(fields) && Plain(env.root)
    ensures KeywordsHold(value, fields, env.(inherited := INHERITED), rank) <==>
            KeywordsHold(value, fields, env.(inherited := {}), rank)
    decreases value, 0, 0
  {
    var full, bare := env.(inherited := INHERITED), env.(inherited := {});
    ObjectSame(value, fields, env);
    if value.Arr? && Own(fields, "items").Some? {
      OwnPlain(fields, "items");
      forall i | 0 <= i < |value.items|
        ensures Satisfies(value.items[i], Own(fields, "items").value, full, rank) <==>
                Satisfies(value.items[i], Own(fields, "items").value, bare, rank)
      {
        OwnFieldsOnly(value.items[i], Own(fields, "items").value, env, rank);
      }
      assert ItemsHold(value, Own(fields, "items").value, full, rank) <==> ItemsHold(value, Own(fields, "items").value, bare, rank);
    }
    if value.Obj? {
      forall i | 0 <= i < |value.fields|
        ensures FieldHolds(value, i, fields, full, rank) <==> FieldHolds(value, i, fields, bare, rank)
      {
        ChildSame(fields, value.fields[i].key);
        var child := ChildOf(fields, value.fields[i].key, {});
        if child.Against? { OwnFieldsOnly(value.fields[i].value, child.node, env, rank); }
      }
      FieldByField(value, fields, full, rank);
      FieldByField(value, fields, bare, rank);
    }
  }

  // ----- Exactly where inherited names decide

  /** A required name that the value lacks, and that the prototype answers for. */
  predicate SeemsPresent(own: seq<Field>, name: Json)
  {
    name.Str? && Own(own, name.text).None? && name.text in INHERITED
  }

  predicate Absent(own: seq<Field>, name: Json)
  {
    name.Str? && Own(own, name.text).None?
  }

  function RequiredNames(fields: seq<Field>): seq<Json>
  {
    match Own(fields, "required")
    case Some(Arr(names)) => names
    case _ => []
  }

  predicate EnoughProperties(own: seq<Field>, fields: seq<Field>)
  {
    Number(fields, "minProperties").Some? ==> |own| as real >= Number(fields, "minProperties").value
  }

  /** Some required name is absent, all that are absent are inherited, and nothing else is wrong. */
  ghost predicate InheritedDecides(own: seq<Field>, fields: seq<Field>)
  {
    && EnoughProperties(own, fields)
    && (exists name | name in RequiredNames(fields) :: Absent(own, name))
    && (forall name | name in RequiredNames(fields) && Absent(own, name) :: SeemsPresent(own, name))
  }

  /** Required fields and their number are judged as JSON Schema does, exactly unless inherited names decide. */
  lemma RequiredAgreesIff(own: seq<Field>, fields: seq<Field>, env: Env)
    ensures (ObjectHolds(Obj(own), fields, env.(inherited := INHERITED)) <==> ObjectHolds(Obj(own), fields, env.(inherited := {}))) <==>
            !InheritedDecides(own, fields)
    ensures InheritedDecides(own, fields) ==> ObjectHolds(Obj(own), fields, env.(inherited := INHERITED))
  {
    var names := RequiredNames(fields);
    RequiredMeans(own, fields, env.(inherited := INHERITED));
    RequiredMeans(own, fields, env.(inherited := {}));
    assert forall name :: name in names && name.Str? ==>
             (Lookup(own, name.text, INHERITED).None? <==> Absent(own, name) && !SeemsPresent(own, name));
    assert forall name :: name in names && name.Str? ==> (Lookup(own, name.text, {}).None? <==> Absent(own, name));
  }

  lemma RequiredMeans(own: seq<Field>, fields: seq<Field>, env: Env)
    ensures ObjectHolds(Obj(own), fields, env) <==>
            EnoughProperties(own, fields) &&
            forall name | name in RequiredNames(fields) && name.Str? :: Lookup(own, name.text, env.inherited).Some?
  {
  }

  /** A field is checked as JSON Schema says, exactly unless its name is inherited and not listed in the properties. */
  lemma ChildAgreesIff(fields: seq<Field>, key: string)
    ensures ChildOf(fields, key, INHERITED) == ChildOf(fields, key, {}) <==>
            key !in INHERITED || Own(PropertiesOf(fields), key).Some?
  {
    var properties := PropertiesOf(fields);
    if Own(properties, key).Some? || key !in INHERITED {
      assert Lookup(properties, key, INHERITED) == Lookup(properties, key, {});
    } else {
      InheritedChild(fields, key);
    }
  }

  lemma InheritedChild(fields: seq<Field>, key: string)
    requires key in INHERITED && Own(PropertiesOf(fields), key).None?
    ensures ChildOf(fields, key, INHERITED) == Against(if key == "__proto__" then Prototype else Foreign)
    ensures ChildOf(fields, key, {}).Against? ==> ChildOf(fields, key, {}).node.Obj?
  {
  }

  /** Then it is refused, whatever the schema says of other fields; only "__proto__" is checked, as by an empty schema. */
  lemma InheritedFieldHolds(value: Json, i: nat, fields: seq<Field>, env: Env, rank: Rank)
    requires Acyclic(env.(inherited := INHERITED), rank) && value.Obj? && i < |value.fields|
    requires value.fields[i].key in INHERITED && Own(PropertiesOf(fields), value.fields[i].key).None?
    ensures FieldHolds(value, i, fields, env.(inherited := INHERITED), rank) <==>
            value.fields[i].key == "__proto__" && Satisfies(value.fields[i].value, Obj([]), env.(inherited := INHERITED), rank)
  {
    var full, x := env.(inherited := INHERITED), value.fields[i].value;
    if value.fields[i].key == "__proto__" {
      assert RefOf(Prototype) == RefOf(Obj([])) == None;
      assert Satisfies(x, Prototype, full, rank) <==> KeywordsHold(x, [], full, rank);
      assert Satisfies(x, Obj([]), full, rank) <==> KeywordsHold(x, [], full, rank);
    } else {
      assert !Satisfies(x, Foreign, full, rank);
    }
  }

  const REQUIRES_TO_STRING: Json := Obj([Field("required", Arr([Str("toString")]))])

  /** A required field with an inherited name counts as present in every object. */
  lemma InheritedNameCountsAsPresent(env: Env, rank: Rank)
    requires Acyclic(env.(inherited := INHERITED), rank) && Acyclic(env.(inherited := {}), rank)
    ensures Satisfies(Obj([]), REQUIRES_TO_STRING, env.(inherited := INHERITED), rank)
    ensures !Satisfies(Obj([]), REQUIRES_TO_STRING, env.(inherited := {}), rank)
  {
    var fields := REQUIRES_TO_STRING.fields;
    assert Own(fields[1..], "$ref") == None && Own(fields[1..], "const") == None && Own(fields[1..], "enum") == None;
    assert Own(fields[1..], "type") == None && Own(fields[1..], "minProperties") == None;
    OnlyRequired(fields);
    assert Lookup([], "toString", INHERITED).Some? && Lookup([], "toString", {}).None?;
    assert Str("toString") in [Str("toString")];
  }

  lemma OnlyRequired(fields: seq<Field>)
    requires fields == REQUIRES_TO_STRING.fields
    ensures Own(fields, "required") == Some(Arr([Str("toString")]))
    ensures forall key | key != "required" :: Own(fields, key) == None
  {
    assert fields[1..] == [];
  }

  /** A field with an inherited name is checked against an inherited function, and refused by every schema node. */
  lemma InheritedNameIsRefused(x: Json, env: Env, rank: Rank)
    requires Acyclic(env.(inherited := INHERITED), rank) && Acyclic(env.(inherited := {}), rank)
    ensures !Satisfies(Obj([Field("constructor", x)]), Obj([]), env.(inherited := INHERITED), rank)
    ensures Satisfies(Obj([Field("constructor", x)]), Obj([]), env.(inherited := {}), rank)
  {
    var value := Obj([Field("constructor", x)]);
    assert ChildOf([], "constructor", INHERITED) == Against(Foreign);
    assert ChildOf([], "constructor", {}) == Free;
    assert value.fields[0].key == "constructor";
    assert !FieldsHold(value, [], env.(inherited := INHERITED), rank);
    assert FieldsHold(value, [], env.(inherited := {}), rank);
    assert !KeywordsHold(value, [], env.(inherited := INHERITED), rank);
    assert KeywordsHold(value, [], env.(inherited := {}), rank);
  }

  // ----- Comparison of constants

  /** JSON values are equal up to the order of fields. */
  ghost predicate SameJson(a: Json, b: Json)
    decreases a
  {
    match a
    case Arr(items) => b.Arr? && |items| == |b.items| && forall i | 0 <= i < |items| :: SameJson(items[i], b.items[i])
    case Obj(fields) =>
      && b.Obj? && |fields| == |b.fields|
      && forall i | 0 <= i < |fields| :: Own(b.fields, fields[i].key).Some? && SameJson(fields[i].value, Own(b.fields, fields[i].key).value)
    case _ => a == b
  }

  /** Objects with at most one field, at any depth. */
  predicate Orderless(j: Json)
  {
    match j
    case Arr(items) => forall i | 0 <= i < |items| :: Orderless(items[i])
    case Obj(fields) => |fields| <= 1 && forall i | 0 <= i < |fields| :: Orderless(fields[i].value)
    case _ => true
  }

  /** No object has a key twice, as no parsed object does. */
  ghost predicate UniqueKeys(j: Json)
  {
    match j
    case Arr(items) => forall i | 0 <= i < |items| :: UniqueKeys(items[i])
    case Obj(fields) => DistinctKeys(fields) && forall i | 0 <= i < |fields| :: UniqueKeys(fields[i].value)
    case _ => true
  }

  ghost predicate DistinctKeys(fields: seq<Field>)
  {
    forall i, j | 0 <= i < j < |fields| :: fields[i].key != fields[j].key
  }

  lemma {:induction false} OwnAt(fields: seq<Field>, i: nat)
    requires DistinctKeys(fields) && i < |fields|
    ensures Own(fields, fields[i].key) == Some(fields[i].value)
  {
    if i > 0 {
      assert fields[0].key != fields[i].key;
      OwnAt(fields[1..], i - 1);
    }
  }

  lemma {:induction false} SameAsItself(a: Json)
    requires UniqueKeys(a)
    ensures SameJson(a, a)
    decreases a
  {
    match a
    case Arr(items) => forall i | 0 <= i < |items| ensures SameJson(items[i], items[i]) { SameAsItself(items[i]); }
    case Obj(fields) =>
      forall i | 0 <= i < |fields|
        ensures Own(fields, fields[i].key) == Some(fields[i].value) && SameJson(fields[i].value, fields[i].value)
      {
        OwnAt(fields, i);
        SameAsItself(fields[i].value);
      }
    case _ =>
  }

  /** A value without objects of several fields is the same JSON value as no other. */
  lemma {:induction false} OrderlessIsItself(a: Json, b: Json)
    requires Orderless(a) && SameJson(a, b)
    ensures a == b
    decreases a
  {
    match a
    case Arr(items) =>
      forall i | 0 <= i < |items| ensures items[i] == b.items[i] { OrderlessIsItself(items[i], b.items[i]); }
      assert items == b.items;
    case Obj(fields) =>
      if |fields| == 1 {
        assert b.fields[1..] == [];
        assert Own(b.fields, fields[0].key) == if b.fields[0].key == fields[0].key then Some(b.fields[0].value) else None;
        OrderlessIsItself(fields[0].value, b.fields[0].value);
        assert fields == [fields[0]] && b.fields == [b.fields[0]];
      } else {
        assert fields == [] && b.fields == [];
      }
    case _ =>
  }

  function Swapped(fields: seq<Field>): (r: seq<Field>)
    requires |fields| >= 2
    ensures |r| == |fields| && r[0] == fields[1] && r[1] == fields[0] && forall i | 2 <= i < |r| :: r[i] == fields[i]
  {
    [fields[1], fields[0]] + fields[2..]
  }

  lemma SwappedIsSame(fields: seq<Field>)
    requires |fields| >= 2 && UniqueKeys(Obj(fields))
    ensures UniqueKeys(Obj(Swapped(fields))) && SameJson(Obj(fields), Obj(Swapped(fields))) && Obj(fields) != Obj(Swapped(fields))
  {
    var r := Swapped(fields);
    assert fields[0].key != fields[1].key;
    forall i | 0 <= i < |fields|
      ensures Own(r, fields[i].key) == Some(fields[i].value) && SameJson(fields[i].value, fields[i].value)
    {
      OwnAt(r, if i == 0 then 1 else if i == 1 then 0 else i);
      SameAsItself(fields[i].value);
    }
  }

  /** Every other value is the same JSON value as one that is written differently: two fields change places. */
  lemma {:induction false} Reorder(a: Json) returns (b: Json)
    requires UniqueKeys(a) && !Orderless(a)
    ensures UniqueKeys(b) && SameJson(a, b) && a != b
    decreases a
  {
    match a
    case Arr(items) =>
      var k :| 0 <= k < |items| && !Orderless(items[k]);
      var item := Reorder(items[k]);
      b := Arr(items[k := item]);
      forall i | 0 <= i < |items| ensures SameJson(items[i], b.items[i]) { if i != k { SameAsItself(items[i]); } }
      assert b.items[k] != items[k];
    case Obj(fields) =>
      if |fields| >= 2 {
        SwappedIsSame(fields);
        b := Obj(Swapped(fields));
      } else {
        var x := Reorder(fields[0].value);
        b := Obj([Field(fields[0].key, x)]);
        assert Own(b.fields, fields[0].key) == Some(x);
        assert b.fields[0] != fields[0];
      }
  }

  /** Comparing a constant by its text is equality of JSON values exactly when it has no object of several fields. */
  lemma TextComparisonIsRightIff(a: Json)
    requires UniqueKeys(a)
    ensures (forall b | UniqueKeys(b) :: SameJson(a, b) <==> a == b) <==> Orderless(a)
  {
    SameAsItself(a);
    if Orderless(a) {
      forall b | SameJson(a, b) ensures a == b { OrderlessIsItself(a, b); }
    } else {
      var b := Reorder(a);
      assert UniqueKeys(b) && !(SameJson(a, b) <==> a == b);
    }
  }

  /** Integers beyond the safe range are not integers to the interpreter; within it, its test is that of JSON Schema. */
  lemma IntegersAreSafe(n: int)
    ensures TypeMatches(Num(n as real), "integer") <==> -MAX_SAFE <= n <= MAX_SAFE
  {
    assert (n as real).Floor == n;
  }
}
