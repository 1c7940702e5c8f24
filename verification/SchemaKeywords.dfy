/** What each keyword asks of a value, one by one, and that this is what the interpreter checks. */
module SchemaKeywords {
  import opened Sequences
  import opened Strings
  import opened Wrappers
  import opened JsonPointer
  import opened FormulaSchema

  // ----- Types

  /** A whole number that a double holds exactly, and its neighbours too. */
  ghost predicate SafeWhole(x: real)
  {
    -9_007_199_254_740_991.0 <= x <= 9_007_199_254_740_991.0 && exists n: int :: IsWhole(x, n)
  }

  predicate IsWhole(x: real, n: int)
  {
    x == n as real
  }

  /** Every JSON value fits the name of its kind and no other; safe whole numbers are integers too. */
  lemma TypeFits(value: Json, name: string)
    ensures value.Null? ==> (TypeMatches(value, name) <==> name == "null")
    ensures value.Bool? ==> (TypeMatches(value, name) <==> name == "boolean")
    ensures value.Str? ==> (TypeMatches(value, name) <==> name == "string")
    ensures value.Arr? ==> (TypeMatches(value, name) <==> name == "array")
    ensures value.Obj? ==> (TypeMatches(value, name) <==> name == "object")
    ensures value.Num? ==> (TypeMatches(value, name) <==> name == "number" || (name == "integer" && SafeWhole(value.number)))
    ensures value.Foreign? || value.Prototype? ==> !TypeMatches(value, name)
  {
    if value.Num? && SafeWhole(value.number) {
      var n :| IsWhole(value.number, n);
      assert (n as real).Floor == n;
    }
    if value.Num? && TypeMatches(value, "integer") {
      assert IsWhole(value.number, value.number.Floor);
    }
  }

  /** The kind of a value by its name. */
  ghost predicate OfKind(value: Json, name: string)
  {
    match value
    case Null => name == "null"
    case Bool(_) => name == "boolean"
    case Num(x) => name == "number" || (name == "integer" && SafeWhole(x))
    case Str(_) => name == "string"
    case Arr(_) => name == "array"
    case Obj(_) => name == "object"
    case _ => false
  }

  // ----- The keywords, as a schema's author reads them

  /** The object has the field, and it is the one that counts if the key comes twice. */
  ghost predicate Written(fields: seq<Field>, key: string, x: Json)
  {
    exists i | 0 <= i < |fields| :: fields[i] == Field(key, x) && forall j | 0 <= j < i :: fields[j].key != key
  }

  ghost predicate HasKey(fields: seq<Field>, key: string)
  {
    exists i | 0 <= i < |fields| :: fields[i].key == key
  }

  lemma {:induction false} OwnIsWritten(fields: seq<Field>, key: string)
    ensures forall x :: Own(fields, key) == Some(x) <==> Written(fields, key, x)
    ensures Own(fields, key).Some? <==> HasKey(fields, key)
  {
    if fields != [] {
      var tail := fields[1..];
      OwnIsWritten(tail, key);
      forall x
        ensures Own(fields, key) == Some(x) <==> Written(fields, key, x)
      {
        if fields[0].key != key && Written(tail, key, x) {
          var i :| 0 <= i < |tail| && tail[i] == Field(key, x) && forall j | 0 <= j < i :: tail[j].key != key;
          assert fields[i + 1] == Field(key, x) && forall j | 0 < j < i + 1 :: fields[j] == tail[j - 1];
        }
        if Written(fields, key, x) {
          var i :| 0 <= i < |fields| && fields[i] == Field(key, x) && forall j | 0 <= j < i :: fields[j].key != key;
          if i > 0 { assert tail[i - 1] == Field(key, x) && forall j | 0 <= j < i - 1 :: tail[j] == fields[j + 1]; }
        }
      }
      if HasKey(tail, key) {
        var i :| 0 <= i < |tail| && tail[i].key == key;
        assert fields[i + 1].key == key;
      }
      if HasKey(fields, key) && fields[0].key != key {
        var i :| 0 <= i < |fields| && fields[i].key == key;
        assert tail[i - 1].key == key;
      }
    }
  }

  /** One name, or a list of which one fits; a list that names nothing, and anything else, allows every value. */
  ghost predicate TypeAllows(value: Json, x: Json)
  {
    && (x.Str? ==> OfKind(value, x.text))
    && (x.Arr? && (exists name :: Str(name) in x.items) ==> exists name :: Str(name) in x.items && OfKind(value, name))
  }

  /** What one keyword with its argument asks of a value. A keyword with an argument that makes no sense asks nothing. */
  ghost predicate Obeys(value: Json, key: string, x: Json, env: Env, rank: Rank)
    requires Acyclic(env, rank)
  {
    && (key == "const" ==> value == x)
    && (key == "enum" && x.Arr? ==> value in x.items)
    && (key == "type" ==> TypeAllows(value, x))
    && (value.Str? ==>
          && (key == "minLength" && x.Num? ==> |value.text| as real >= x.number)
          && (key == "pattern" && x.Str? ==> env.matches(x.text, value.text))
          && (key == "format" && x == Str("uri") ==> env.isUri(value.text)))
    && (value.Num? && key == "minimum" && x.Num? ==> value.number >= x.number)
    && (value.Arr? ==>
          && (key == "minItems" && x.Num? ==> |value.items| as real >= x.number)
          && (key == "uniqueItems" && x == Bool(true) ==> forall i, j | 0 <= i < j < |value.items| :: value.items[i] != value.items[j])
          && (key == "items" ==> forall i | 0 <= i < |value.items| :: Satisfies(value.items[i], x, env, rank)))
    && (value.Obj? ==>
          && (key == "minProperties" && x.Num? ==> |value.fields| as real >= x.number)
          && (key == "required" && x.Arr? ==>
                forall name | Str(name) in x.items :: HasKey(value.fields, name) || name in env.inherited))
  }

  /** The node that the schema's properties give a key. */
  ghost predicate Listed(fields: seq<Field>, key: string, node: Json)
  {
    exists properties :: Written(fields, "properties", Obj(properties)) && Written(properties, key, node)
  }

  /** A field is checked against its own node, or what the prototype answers; else it falls under additional properties. */
  ghost predicate FieldObeys(field: Field, fields: seq<Field>, env: Env, rank: Rank)
    requires Acyclic(env, rank)
  {
    if exists node :: Listed(fields, field.key, node) then
      exists node :: Listed(fields, field.key, node) && Satisfies(field.value, node, env, rank)
    else if field.key in env.inherited then
      field.key == "__proto__" && Satisfies(field.value, Prototype, env, rank)
    else
      && !Written(fields, "additionalProperties", Bool(false))
      && forall more: seq<Field> | Written(fields, "additionalProperties", Obj(more)) :: Satisfies(field.value, Obj(more), env, rank)
  }

  lemma KindsAgree(value: Json, name: string)
    ensures TypeMatches(value, name) <==> OfKind(value, name)
  {
    TypeFits(value, name);
  }

  lemma TypeMeans(value: Json, fields: seq<Field>)
    ensures TypeHolds(value, fields) <==> forall x | Written(fields, "type", x) :: TypeAllows(value, x)
  {
    OwnIsWritten(fields, "type");
    forall name ensures TypeMatches(value, name) <==> OfKind(value, name) { KindsAgree(value, name); }
    match Own(fields, "type")
    case None => assert forall name :: !Declares(fields, name);
    case Some(Str(name)) => assert Declares(fields, name) && forall other | Declares(fields, other) :: other == name;
    case Some(Arr(items)) => assert forall name :: Declares(fields, name) <==> Str(name) in items;
    case Some(x) => assert forall name :: !Declares(fields, name);
  }

  ghost predicate AllObeyed(value: Json, fields: seq<Field>, env: Env, rank: Rank)
    requires Acyclic(env, rank)
  {
    forall key, x | Written(fields, key, x) :: Obeys(value, key, x, env, rank)
  }

  ghost predicate Obeyed(value: Json, fields: seq<Field>, key: string, env: Env, rank: Rank)
    requires Acyclic(env, rank)
  {
    Own(fields, key).Some? ==> Obeys(value, key, Own(fields, key).value, env, rank)
  }

  lemma AllObeyedByOwn(value: Json, fields: seq<Field>, env: Env, rank: Rank)
    requires Acyclic(env, rank)
    ensures AllObeyed(value, fields, env, rank) <==> forall key :: Obeyed(value, fields, key, env, rank)
  {
    forall key ensures forall x :: Own(fields, key) == Some(x) <==> Written(fields, key, x) { OwnIsWritten(fields, key); }
    if forall key :: Obeyed(value, fields, key, env, rank) {
      forall key, x | Written(fields, key, x) ensures Obeys(value, key, x, env, rank) {
        assert Obeyed(value, fields, key, env, rank);
      }
    }
  }

  ghost predicate ValueObeys(value: Json, fields: seq<Field>, env: Env, rank: Rank)
    requires Acyclic(env, rank)
  {
    Obeyed(value, fields, "const", env, rank) && Obeyed(value, fields, "enum", env, rank) &&
    Obeyed(value, fields, "type", env, rank) && Obeyed(value, fields, "minimum", env, rank)
  }

  ghost predicate StringObeys(value: Json, fields: seq<Field>, env: Env, rank: Rank)
    requires Acyclic(env, rank)
  {
    Obeyed(value, fields, "minLength", env, rank) && Obeyed(value, fields, "pattern", env, rank) &&
    Obeyed(value, fields, "format", env, rank)
  }

  ghost predicate PartsObey(value: Json, fields: seq<Field>, env: Env, rank: Rank)
    requires Acyclic(env, rank)
  {
    Obeyed(value, fields, "minItems", env, rank) && Obeyed(value, fields, "uniqueItems", env, rank) &&
    Obeyed(value, fields, "items", env, rank) &&
    Obeyed(value, fields, "minProperties", env, rank) && Obeyed(value, fields, "required", env, rank)
  }

  lemma ValueMeans(value: Json, fields: seq<Field>, env: Env, rank: Rank)
    requires Acyclic(env, rank)
    ensures ValueHolds(value, fields) <==> ValueObeys(value, fields, env, rank)
  {
    TypeMeans(value, fields);
    OwnIsWritten(fields, "type");
  }

  lemma StringMeans(value: Json, fields: seq<Field>, env: Env, rank: Rank)
    requires Acyclic(env, rank)
    ensures StringHolds(value, fields, env) <==> StringObeys(value, fields, env, rank)
  {
  }

  lemma PartsMean(value: Json, fields: seq<Field>, env: Env, rank: Rank)
    requires Acyclic(env, rank)
    ensures PartsObey(value, fields, env, rank) <==>
            && ArrayHolds(value, fields) && ObjectHolds(value, fields, env)
            && (value.Arr? && Own(fields, "items").Some? ==> ItemsHold(value, Own(fields, "items").value, env, rank))
  {
    if value.Obj? {
      forall name ensures Own(value.fields, name).Some? <==> HasKey(value.fields, name) { OwnIsWritten(value.fields, name); }
      match Own(fields, "required")
      case Some(Arr(names)) =>
        assert forall n :: n in names && n.Str? ==> n == Str(n.text);
      case _ =>
    }
  }

  lemma ChildMeans(value: Json, i: nat, fields: seq<Field>, env: Env, rank: Rank)
    requires Acyclic(env, rank) && value.Obj? && i < |value.fields|
    ensures FieldHolds(value, i, fields, env, rank) <==> FieldObeys(value.fields[i], fields, env, rank)
  {
    var key := value.fields[i].key;
    OwnIsWritten(fields, "properties");
    OwnIsWritten(fields, "additionalProperties");
    OwnIsWritten(PropertiesOf(fields), key);
    if Own(PropertiesOf(fields), key).Some? {
      var node := Own(PropertiesOf(fields), key).value;
      assert Written(fields, "properties", Obj(PropertiesOf(fields)));
      assert Listed(fields, key, node);
      assert forall other | Listed(fields, key, other) :: other == node;
    } else {
      assert forall other :: !Listed(fields, key, other);
      if key in env.inherited && key != "__proto__" { assert !Satisfies(value.fields[i].value, Foreign, env, rank); }
    }
  }

  const KEYWORDS: seq<string> :=
    ["const", "enum", "type", "minimum", "minLength", "pattern", "format",
     "minItems", "uniqueItems", "items", "minProperties", "required"]

  lemma OtherKeyIsFree(value: Json, key: string, x: Json, env: Env, rank: Rank)
    requires Acyclic(env, rank) && key !in KEYWORDS
    ensures Obeys(value, key, x, env, rank)
  {
  }

  lemma KeywordsAre(key: string)
    ensures key in KEYWORDS <==>
            || key == "const" || key == "enum" || key == "type" || key == "minimum"
            || key == "minLength" || key == "pattern" || key == "format"
            || key == "minItems" || key == "uniqueItems" || key == "items" || key == "minProperties" || key == "required"
  {
  }

  ghost predicate GroupsObey(value: Json, fields: seq<Field>, env: Env, rank: Rank)
    requires Acyclic(env, rank)
  {
    ValueObeys(value, fields, env, rank) && StringObeys(value, fields, env, rank) && PartsObey(value, fields, env, rank)
  }

  lemma KeyInGroups(value: Json, fields: seq<Field>, key: string, env: Env, rank: Rank)
    requires Acyclic(env, rank) && GroupsObey(value, fields, env, rank) && key in KEYWORDS
    ensures Obeyed(value, fields, key, env, rank)
  {
    KeywordsAre(key);
  }

  lemma OthersAreFree(value: Json, fields: seq<Field>, env: Env, rank: Rank)
    requires Acyclic(env, rank)
    ensures AllObeyed(value, fields, env, rank) <==> GroupsObey(value, fields, env, rank)
  {
    AllObeyedByOwn(value, fields, env, rank);
    if GroupsObey(value, fields, env, rank) {
      forall key ensures Obeyed(value, fields, key, env, rank) {
        if key in KEYWORDS {
          KeyInGroups(value, fields, key, env, rank);
        } else if Own(fields, key).Some? {
          OtherKeyIsFree(value, key, Own(fields, key).value, env, rank);
        }
      }
    }
  }

  /**
   A value satisfies a node without a reference exactly when it obeys every keyword written there, each by itself, and
   every field of it is checked by its own node or the additional properties.
   */
  lemma KeywordByKeyword(value: Json, fields: seq<Field>, env: Env, rank: Rank)
    requires Acyclic(env, rank) && RefOf(Obj(fields)).None?
    ensures Satisfies(value, Obj(fields), env, rank) <==>
            && AllObeyed(value, fields, env, rank)
            && (value.Obj? ==> forall i | 0 <= i < |value.fields| :: FieldObeys(value.fields[i], fields, env, rank))
  {
    ValueMeans(value, fields, env, rank);
    StringMeans(value, fields, env, rank);
    PartsMean(value, fields, env, rank);
    OthersAreFree(value, fields, env, rank);
    if value.Obj? {
      FieldByField(value, fields, env, rank);
      forall i | 0 <= i < |value.fields|
        ensures FieldHolds(value, i, fields, env, rank) <==> FieldObeys(value.fields[i], fields, env, rank)
      {
        ChildMeans(value, i, fields, env, rank);
      }
    }
    assert Satisfies(value, Obj(fields), env, rank) <==> KeywordsHold(value, fields, env, rank);
  }

  lemma {:induction false} OpenFields(value: Json, k: nat, fields: seq<Field>, env: Env, rank: Rank, path: seq<Step>)
    requires Acyclic(env, rank) && value.Obj? && k <= |value.fields|
    requires forall i | 0 <= i < |value.fields| :: ChildOf(fields, value.fields[i].key, env.inherited).Free?
    ensures RunFields(value, k, fields, env, rank, path) == Outcome([], false)
    decreases |value.fields| - k
  {
    if k < |value.fields| { OpenFields(value, k + 1, fields, env, rank, path); }
  }

  lemma OnlyType(name: string)
    ensures var fields := [Field("type", Str(name))];
            (forall key :: Own(fields, key) == if key == "type" then Some(Str(name)) else None) && DeclaredTypes(fields) == [name]
  {
    assert [Field("type", Str(name))][1..] == [];
  }

  lemma OnlyTypeChecked(value: Json, fields: seq<Field>, name: string)
    requires (forall key :: Own(fields, key) == if key == "type" then Some(Str(name)) else None) && DeclaredTypes(fields) == [name]
    ensures WrongTypeFor(value, fields) <==> !OfKind(value, name)
  {
    KindsAgree(value, name);
    assert WrongTypeFor(value, fields) <==> !TypeMatches(value, DeclaredTypes(fields)[0]);
  }

  lemma TypeAloneLocal(value: Json, name: string, env: Env, path: seq<Step>)
    ensures var fields := [Field("type", Str(name))];
            && (WrongTypeFor(value, fields) <==> !OfKind(value, name))
            && LocalIssues(value, fields, env, path) == if OfKind(value, name) then [] else [Issue(path, WrongType)]
  {
    var fields := [Field("type", Str(name))];
    OnlyType(name);
    OnlyTypeChecked(value, fields, name);
    assert ConstIssues(value, fields, path) + EnumIssues(value, fields, path) == [];
    assert StringIssues(value, fields, env, path) == [];
    assert ArrayIssues(value, fields, path) == [] && NumberIssues(value, fields, path) == [];
  }

  lemma TypeAloneElse(value: Json, name: string, env: Env, path: seq<Step>)
    ensures var fields := [Field("type", Str(name))];
            && RefOf(Obj(fields)).None? && Own(fields, "items").None? && ObjectIssues(value, fields, env, path) == []
            && forall key :: ChildOf(fields, key, env.inherited).Free? <==> key !in env.inherited
  {
    OnlyType(name);
  }

  /**
   A schema that declares one type alone gives no issue exactly for the values of that kind, apart from objects with
   inherited names, and the one issue of a wrong type for all others.
   */
  lemma TypeAlone(value: Json, name: string, env: Env, rank: Rank, path: seq<Step>)
    requires Acyclic(env, rank)
    ensures var o := Run(value, Obj([Field("type", Str(name))]), env, rank, path);
            && (!OfKind(value, name) ==> o == Outcome([Issue(path, WrongType)], false))
            && (OfKind(value, name) && (value.Obj? ==> forall i | 0 <= i < |value.fields| :: value.fields[i].key !in env.inherited) ==>
                  o == Outcome([], false))
  {
    var fields := [Field("type", Str(name))];
    TypeAloneLocal(value, name, env, path);
    TypeAloneElse(value, name, env, path);
    assert Run(value, Obj(fields), env, rank, path) == RunKeywords(value, fields, env, rank, path);
    if value.Obj? && OfKind(value, name) && forall i | 0 <= i < |value.fields| :: value.fields[i].key !in env.inherited {
      OpenFields(value, 0, fields, env, rank, path);
    }
  }

  /** A reference, whatever stands beside it, asks what the node asks to which its keys lead. */
  lemma ReferenceMeans(value: Json, fields: seq<Field>, keys: seq<string>, env: Env, rank: Rank)
    requires Acyclic(env, rank) && keys != []
    requires Written(fields, "$ref", Str("#/" + Join(EscapeAll(keys), '/')))
    ensures Satisfies(value, Obj(fields), env, rank) <==>
            Walk(env.root, keys, env.inherited).Some? && Satisfies(value, Walk(env.root, keys, env.inherited).value, env, rank)
  {
    var r := "#/" + Join(EscapeAll(keys), '/');
    OwnIsWritten(fields, "$ref");
    assert RefOf(Obj(fields)) == Some(r);
    ReferenceResolves(env.root, keys, env.inherited);
    if Resolve(env.root, r, env.inherited).Some? {
      assert NextRef(env, r) == RefOf(Resolve(env.root, r, env.inherited).value);
    }
  }

  // ----- Every issue is a fault of the part that its path leads to

  ghost predicate TypeAllowed(value: Json, fields: seq<Field>)
  {
    forall x | Written(fields, "type", x) :: TypeAllows(value, x)
  }

  /**
   The part of the value at the end of the steps is checked against a node: the one that the node of the whole leads to
   through references, items and properties. A value of the wrong type is not looked into.
   */
  ghost predicate Checked(value: Json, node: Json, env: Env, rank: Rank, steps: seq<Step>, part: Json, final: Json)
    requires Acyclic(env, rank)
    decreases |steps|, Remaining(node, rank)
  {
    if RefOf(node).Some? then
      var resolved := Resolve(env.root, RefOf(node).value, env.inherited);
      resolved.Some? && NextRef(env, RefOf(node).value) == RefOf(resolved.value) &&
      Checked(value, resolved.value, env, rank, steps, part, final)
    else if steps == [] then part == value && final == node
    else
      IsObject(node) && TypeAllowed(value, FieldsOf(node)) &&
      match steps[0]
      case Index(i) =>
        value.Arr? && i < |value.items| && Own(FieldsOf(node), "items").Some? &&
        Checked(value.items[i], Own(FieldsOf(node), "items").value, env, rank, steps[1..], part, final)
      case Key(key) =>
        var child := ChildOf(FieldsOf(node), key, env.inherited);
        && value.Obj? && child.Against?
        && exists j | 0 <= j < |value.fields| ::
             (value.fields[j].key == key && Checked(value.fields[j].value, child.node, env, rank, steps[1..], part, final))
  }

  function Keyword(kind: Kind): string
  {
    match kind
    case NotTheConstant => "const"
    case OutsideEnum => "enum"
    case WrongType => "type"
    case TooShort => "minLength"
    case NoMatch => "pattern"
    case NotAUri => "format"
    case BelowMinimum => "minimum"
    case TooFewItems => "minItems"
    case DuplicateItem => "uniqueItems"
    case TooFewProperties => "minProperties"
    case RequiredField(_) => "required"
    case UnknownField => "additionalProperties"
    case InvalidNode => ""
  }

  ghost predicate Breaks(value: Json, fields: seq<Field>, key: string, env: Env, rank: Rank)
    requires Acyclic(env, rank)
  {
    exists x :: Written(fields, key, x) && !Obeys(value, key, x, env, rank)
  }

  /** A value of the wrong type is checked for nothing else but constants. */
  predicate DespiteType(kind: Kind)
  {
    kind.NotTheConstant? || kind.OutsideEnum? || kind.WrongType?
  }

  /** What an issue says of a part, of the node it was checked against, and of the steps beyond the part. */
  ghost predicate Fault(kind: Kind, part: Json, node: Json, beyond: seq<Step>, env: Env, rank: Rank)
    requires Acyclic(env, rank)
  {
    if kind.InvalidNode? then beyond == [] && !IsObject(node)
    else if kind.RequiredField? then
      && TypeAllowed(part, FieldsOf(node)) && beyond == [] && part.Obj?
      && !HasKey(part.fields, kind.name) && kind.name !in env.inherited
      && exists names :: Written(FieldsOf(node), "required", Arr(names)) && Str(kind.name) in names
    else if kind.UnknownField? then
      && TypeAllowed(part, FieldsOf(node)) && Written(FieldsOf(node), "additionalProperties", Bool(false)) && part.Obj?
      && exists key :: beyond == [Key(key)] && HasKey(part.fields, key) && key !in env.inherited &&
                       forall n :: !Listed(FieldsOf(node), key, n)
    else
      (DespiteType(kind) || TypeAllowed(part, FieldsOf(node))) && beyond == [] && Breaks(part, FieldsOf(node), Keyword(kind), env, rank)
  }

  ghost predicate Justified(issue: Issue, value: Json, node: Json, env: Env, rank: Rank, path: seq<Step>)
    requires Acyclic(env, rank)
  {
    exists steps, beyond, part, final ::
      issue.path == path + steps + beyond && Checked(value, node, env, rank, steps, part, final) &&
      Fault(issue.kind, part, final, beyond, env, rank)
  }

  lemma BrokenKey(value: Json, fields: seq<Field>, key: string, env: Env, rank: Rank)
    requires Acyclic(env, rank)
    ensures Breaks(value, fields, key, env, rank) <==> !Obeyed(value, fields, key, env, rank)
  {
    OwnIsWritten(fields, key);
    if !Obeyed(value, fields, key, env, rank) { assert Written(fields, key, Own(fields, key).value); }
  }

  lemma BrokenIsFault(kind: Kind, value: Json, node: Json, env: Env, rank: Rank)
    requires Acyclic(env, rank) && !kind.InvalidNode? && !kind.RequiredField? && !kind.UnknownField?
    requires DespiteType(kind) || TypeAllowed(value, FieldsOf(node))
    ensures Fault(kind, value, node, [], env, rank) <==> !Obeyed(value, FieldsOf(node), Keyword(kind), env, rank)
  {
    var key := Keyword(kind);
    BrokenKey(value, FieldsOf(node), key, env, rank);
  }

  /** The issue names a keyword of its own that the value breaks. */
  ghost predicate Names(issue: Issue, value: Json, fields: seq<Field>, env: Env, rank: Rank, path: seq<Step>)
    requires Acyclic(env, rank)
  {
    && issue.path == path && !issue.kind.InvalidNode? && !issue.kind.RequiredField? && !issue.kind.UnknownField?
    && !Obeyed(value, fields, Keyword(issue.kind), env, rank)
  }

  lemma ValueNames(issue: Issue, value: Json, fields: seq<Field>, env: Env, rank: Rank, path: seq<Step>)
    requires Acyclic(env, rank)
    requires issue in ConstIssues(value, fields, path) || issue in EnumIssues(value, fields, path) ||
             issue in NumberIssues(value, fields, path)
    ensures Names(issue, value, fields, env, rank, path)
  {
  }

  lemma TypeNames(value: Json, fields: seq<Field>, env: Env, rank: Rank, path: seq<Step>)
    requires Acyclic(env, rank) && WrongTypeFor(value, fields)
    ensures Names(Issue(path, WrongType), value, fields, env, rank, path)
  {
    OwnIsWritten(fields, "type");
    TypeIssue(value, fields);
    TypeMeans(value, fields);
  }

  lemma StringNames(issue: Issue, value: Json, fields: seq<Field>, env: Env, rank: Rank, path: seq<Step>)
    requires Acyclic(env, rank) && issue in StringIssues(value, fields, env, path)
    ensures Names(issue, value, fields, env, rank, path)
  {
  }

  lemma ArrayNames(issue: Issue, value: Json, fields: seq<Field>, env: Env, rank: Rank, path: seq<Step>)
    requires Acyclic(env, rank) && issue in ArrayIssues(value, fields, path)
    ensures Names(issue, value, fields, env, rank, path)
  {
    DistinctBySize(value.items);
  }

  lemma LocalFault(issue: Issue, value: Json, node: Json, env: Env, rank: Rank, path: seq<Step>)
    requires Acyclic(env, rank) && issue in LocalIssues(value, FieldsOf(node), env, path)
    ensures issue.path == path && Fault(issue.kind, value, node, [], env, rank)
  {
    var fields := FieldsOf(node);
    if issue in StringIssues(value, fields, env, path) { StringNames(issue, value, fields, env, rank, path); }
    else if issue in ArrayIssues(value, fields, path) { ArrayNames(issue, value, fields, env, rank, path); }
    else if WrongTypeFor(value, fields) && issue == Issue(path, WrongType) { TypeNames(value, fields, env, rank, path); }
    else { ValueNames(issue, value, fields, env, rank, path); }
    TypeRight(value, fields);
    BrokenIsFault(issue.kind, value, node, env, rank);
  }

  lemma TypeRight(value: Json, fields: seq<Field>)
    ensures TypeAllowed(value, fields) <==> !WrongTypeFor(value, fields)
  {
    TypeIssue(value, fields);
    TypeMeans(value, fields);
  }

  lemma {:induction false} RequiredFault(issue: Issue, names: seq<Json>, own: seq<Field>, env: Env, path: seq<Step>)
    requires issue in RequiredIssues(names, own, env, path)
    ensures issue.path == path && issue.kind.RequiredField?
    ensures Str(issue.kind.name) in names && !HasKey(own, issue.kind.name) && issue.kind.name !in env.inherited
  {
    if names[0].Str? && issue == Issue(path, RequiredField(names[0].text)) && Lookup(own, names[0].text, env.inherited).None? {
      OwnIsWritten(own, names[0].text);
    } else {
      RequiredFault(issue, names[1..], own, env, path);
    }
  }

  lemma ObjectFault(issue: Issue, value: Json, node: Json, env: Env, rank: Rank, path: seq<Step>)
    requires Acyclic(env, rank) && TypeAllowed(value, FieldsOf(node)) && issue in ObjectIssues(value, FieldsOf(node), env, path)
    ensures issue.path == path && Fault(issue.kind, value, node, [], env, rank)
  {
    var fields := FieldsOf(node);
    var required := Own(fields, "required");
    OwnIsWritten(fields, "required");
    if required.Some? && required.value.Arr? && issue in RequiredIssues(required.value.items, value.fields, env, path) {
      RequiredFault(issue, required.value.items, value.fields, env, path);
    } else {
      assert issue == Issue(path, TooFewProperties);
      BrokenIsFault(TooFewProperties, value, node, env, rank);
    }
  }

  lemma FaultHere(issue: Issue, value: Json, node: Json, beyond: seq<Step>, env: Env, rank: Rank, path: seq<Step>)
    requires Acyclic(env, rank) && RefOf(node).None? && issue.path == path + beyond
    requires Fault(issue.kind, value, node, beyond, env, rank)
    ensures Justified(issue, value, node, env, rank, path)
  {
    assert path + [] + beyond == path + beyond;
    assert Checked(value, node, env, rank, [], value, node);
  }

  lemma CheckedInItem(value: Json, i: nat, node: Json, env: Env, rank: Rank, steps: seq<Step>, part: Json, final: Json)
    requires Acyclic(env, rank) && RefOf(node).None? && value.Arr? && i < |value.items| && Own(FieldsOf(node), "items").Some?
    requires IsObject(node) && TypeAllowed(value, FieldsOf(node))
    requires Checked(value.items[i], Own(FieldsOf(node), "items").value, env, rank, steps, part, final)
    ensures Checked(value, node, env, rank, [Index(i)] + steps, part, final)
  {
    assert ([Index(i)] + steps)[1..] == steps;
  }

  lemma CheckedInField(value: Json, j: nat, node: Json, child: Json, env: Env, rank: Rank, steps: seq<Step>, part: Json, final: Json)
    requires Acyclic(env, rank) && RefOf(node).None? && value.Obj? && j < |value.fields|
    requires IsObject(node) && TypeAllowed(value, FieldsOf(node))
    requires ChildOf(FieldsOf(node), value.fields[j].key, env.inherited) == Against(child)
    requires Checked(value.fields[j].value, child, env, rank, steps, part, final)
    ensures Checked(value, node, env, rank, [Key(value.fields[j].key)] + steps, part, final)
  {
    assert ([Key(value.fields[j].key)] + steps)[1..] == steps;
  }

  /** A fault of a part is one of the whole, when everything checked in the part is checked in the whole a step further. */
  lemma FaultInPart(issue: Issue, part: Json, child: Json, value: Json, node: Json, step: Step, env: Env, rank: Rank, path: seq<Step>)
    requires Acyclic(env, rank) && Justified(issue, part, child, env, rank, path + [step])
    requires forall steps, p, final | Checked(part, child, env, rank, steps, p, final) ::
               Checked(value, node, env, rank, [step] + steps, p, final)
    ensures Justified(issue, value, node, env, rank, path)
  {
    var steps, beyond, p, final :|
      issue.path == path + [step] + steps + beyond && Checked(part, child, env, rank, steps, p, final) &&
      Fault(issue.kind, p, final, beyond, env, rank);
    var longer := [step] + steps;
    assert Checked(value, node, env, rank, longer, p, final);
    Assoc(path, [step], steps);
    JustifiedBy(issue, value, node, env, rank, path, longer, beyond, p, final);
  }

  lemma JustifiedBy(issue: Issue, value: Json, node: Json, env: Env, rank: Rank, path: seq<Step>,
                    steps: seq<Step>, beyond: seq<Step>, part: Json, final: Json)
    requires Acyclic(env, rank) && issue.path == path + steps + beyond
    requires Checked(value, node, env, rank, steps, part, final) && Fault(issue.kind, part, final, beyond, env, rank)
    ensures Justified(issue, value, node, env, rank, path)
  {
  }

  lemma FaultInItem(issue: Issue, value: Json, i: nat, node: Json, env: Env, rank: Rank, path: seq<Step>)
    requires Acyclic(env, rank) && RefOf(node).None? && value.Arr? && i < |value.items| && Own(FieldsOf(node), "items").Some?
    requires IsObject(node) && TypeAllowed(value, FieldsOf(node))
    requires Justified(issue, value.items[i], Own(FieldsOf(node), "items").value, env, rank, path + [Index(i)])
    ensures Justified(issue, value, node, env, rank, path)
  {
    var item := Own(FieldsOf(node), "items").value;
    forall steps, p, final | Checked(value.items[i], item, env, rank, steps, p, final)
      ensures Checked(value, node, env, rank, [Index(i)] + steps, p, final)
    {
      CheckedInItem(value, i, node, env, rank, steps, p, final);
    }
    FaultInPart(issue, value.items[i], item, value, node, Index(i), env, rank, path);
  }

  lemma FaultInField(issue: Issue, value: Json, j: nat, node: Json, child: Json, env: Env, rank: Rank, path: seq<Step>)
    requires Acyclic(env, rank) && RefOf(node).None? && value.Obj? && j < |value.fields|
    requires IsObject(node) && TypeAllowed(value, FieldsOf(node))
    requires ChildOf(FieldsOf(node), value.fields[j].key, env.inherited) == Against(child)
    requires Justified(issue, value.fields[j].value, child, env, rank, path + [Key(value.fields[j].key)])
    ensures Justified(issue, value, node, env, rank, path)
  {
    var key, x := value.fields[j].key, value.fields[j].value;
    forall steps, p, final | Checked(x, child, env, rank, steps, p, final)
      ensures Checked(value, node, env, rank, [Key(key)] + steps, p, final)
    {
      CheckedInField(value, j, node, child, env, rank, steps, p, final);
    }
    FaultInPart(issue, x, child, value, node, Key(key), env, rank, path);
  }

  lemma UnknownFault(value: Json, j: nat, node: Json, env: Env, rank: Rank)
    requires Acyclic(env, rank) && value.Obj? && j < |value.fields|
    requires IsObject(node) && TypeAllowed(value, FieldsOf(node)) && ChildOf(FieldsOf(node), value.fields[j].key, env.inherited).Unknown?
    ensures Fault(UnknownField, value, node, [Key(value.fields[j].key)], env, rank)
  {
    var fields, key := FieldsOf(node), value.fields[j].key;
    OwnIsWritten(fields, "properties");
    OwnIsWritten(fields, "additionalProperties");
    OwnIsWritten(PropertiesOf(fields), key);
    assert HasKey(value.fields, key);
    assert forall n :: !Listed(fields, key, n);
  }

  /**
   Every issue is a fault of the value: its path leads to a part, that part was checked against some node, and it breaks
   the keyword of that node which the issue names.
   */
  lemma {:induction false} IssuesAreFaults(issue: Issue, value: Json, node: Json, env: Env, rank: Rank, path: seq<Step>)
    requires Acyclic(env, rank) && issue in Run(value, node, env, rank, path).issues
    ensures Justified(issue, value, node, env, rank, path)
    decreases value, Remaining(node, rank), 2, 0
  {
    if !IsObject(node) {
      FaultHere(issue, value, node, [], env, rank, path);
    } else if RefOf(node).Some? {
      var resolved := Resolve(env.root, RefOf(node).value, env.inherited);
      assert NextRef(env, RefOf(node).value) == RefOf(resolved.value);
      IssuesAreFaults(issue, value, resolved.value, env, rank, path);
      ThroughReference(issue, value, node, env, rank, path);
    } else {
      KeywordFaults(issue, value, node, env, rank, path);
    }
  }

  lemma ThroughReference(issue: Issue, value: Json, node: Json, env: Env, rank: Rank, path: seq<Step>)
    requires Acyclic(env, rank) && RefOf(node).Some? && Resolve(env.root, RefOf(node).value, env.inherited).Some?
    requires Justified(issue, value, Resolve(env.root, RefOf(node).value, env.inherited).value, env, rank, path)
    ensures Justified(issue, value, node, env, rank, path)
  {
    var resolved := Resolve(env.root, RefOf(node).value, env.inherited).value;
    var steps, beyond, part, final :|
      issue.path == path + steps + beyond && Checked(value, resolved, env, rank, steps, part, final) &&
      Fault(issue.kind, part, final, beyond, env, rank);
    assert Checked(value, node, env, rank, steps, part, final);
  }

  lemma {:induction false} KeywordFaults(issue: Issue, value: Json, node: Json, env: Env, rank: Rank, path: seq<Step>)
    requires Acyclic(env, rank) && IsObject(node) && RefOf(node).None?
    requires issue in RunKeywords(value, FieldsOf(node), env, rank, path).issues
    ensures Justified(issue, value, node, env, rank, path)
    decreases value, 0, 1, 0
  {
    var fields := FieldsOf(node);
    TypeRight(value, fields);
    if issue in LocalIssues(value, fields, env, path) {
      LocalFault(issue, value, node, env, rank, path);
      FaultHere(issue, value, node, [], env, rank, path);
    } else if value.Arr? && Own(fields, "items").Some? {
      ItemFaults(issue, value, 0, node, env, rank, path);
    } else if issue in ObjectIssues(value, fields, env, path) {
      ObjectFault(issue, value, node, env, rank, path);
      FaultHere(issue, value, node, [], env, rank, path);
    } else {
      FieldFaults(issue, value, 0, node, env, rank, path);
    }
  }

  lemma {:induction false} ItemFaults(issue: Issue, value: Json, k: nat, node: Json, env: Env, rank: Rank, path: seq<Step>)
    requires Acyclic(env, rank) && RefOf(node).None? && IsObject(node) && TypeAllowed(value, FieldsOf(node))
    requires value.Arr? && k <= |value.items| && Own(FieldsOf(node), "items").Some?
    requires issue in RunItems(value, k, Own(FieldsOf(node), "items").value, env, rank, path).issues
    ensures Justified(issue, value, node, env, rank, path)
    decreases value, 0, 0, |value.items| - k
  {
    var item := Own(FieldsOf(node), "items").value;
    if issue in Run(value.items[k], item, env, rank, path + [Index(k)]).issues {
      IssuesAreFaults(issue, value.items[k], item, env, rank, path + [Index(k)]);
      FaultInItem(issue, value, k, node, env, rank, path);
    } else {
      ItemFaults(issue, value, k + 1, node, env, rank, path);
    }
  }

  lemma {:induction false} FieldFaults(issue: Issue, value: Json, k: nat, node: Json, env: Env, rank: Rank, path: seq<Step>)
    requires Acyclic(env, rank) && RefOf(node).None? && IsObject(node) && TypeAllowed(value, FieldsOf(node))
    requires value.Obj? && k <= |value.fields|
    requires issue in RunFields(value, k, FieldsOf(node), env, rank, path).issues
    ensures Justified(issue, value, node, env, rank, path)
    decreases value, 0, 0, |value.fields| - k
  {
    if issue in RunField(value, k, FieldsOf(node), env, rank, path).issues {
      var key := value.fields[k].key;
      var child := ChildOf(FieldsOf(node), key, env.inherited);
      if child.Against? {
        IssuesAreFaults(issue, value.fields[k].value, child.node, env, rank, path + [Key(key)]);
        FaultInField(issue, value, k, node, child.node, env, rank, path);
      } else {
        UnknownFault(value, k, node, env, rank);
        FaultHere(issue, value, node, [Key(key)], env, rank, path);
      }
    } else {
      FieldFaults(issue, value, k + 1, node, env, rank, path);
    }
  }

  // ----- Every fault is an issue

  lemma TypeReported(value: Json, fields: seq<Field>, env: Env, rank: Rank, path: seq<Step>)
    requires Acyclic(env, rank) && !Obeyed(value, fields, "type", env, rank)
    ensures WrongTypeFor(value, fields)
  {
    OwnIsWritten(fields, "type");
    TypeIssue(value, fields);
    TypeMeans(value, fields);
  }

  lemma ValueReported(kind: Kind, value: Json, fields: seq<Field>, env: Env, rank: Rank, path: seq<Step>)
    requires Acyclic(env, rank) && !Obeyed(value, fields, Keyword(kind), env, rank)
    ensures kind.NotTheConstant? ==> Issue(path, kind) in ConstIssues(value, fields, path)
    ensures kind.OutsideEnum? ==> Issue(path, kind) in EnumIssues(value, fields, path)
    ensures kind.BelowMinimum? ==> Issue(path, kind) in NumberIssues(value, fields, path)
  {
  }

  lemma StringReported(kind: Kind, value: Json, fields: seq<Field>, env: Env, rank: Rank, path: seq<Step>)
    requires Acyclic(env, rank) && !Obeyed(value, fields, Keyword(kind), env, rank)
    requires kind.TooShort? || kind.NoMatch? || kind.NotAUri?
    ensures Issue(path, kind) in StringIssues(value, fields, env, path)
  {
  }

  lemma FewReported(value: Json, fields: seq<Field>, env: Env, rank: Rank, path: seq<Step>)
    requires Acyclic(env, rank) && !Obeyed(value, fields, "minItems", env, rank)
    ensures Issue(path, TooFewItems) in ArrayIssues(value, fields, path)
  {
  }

  lemma DuplicateReported(value: Json, fields: seq<Field>, env: Env, rank: Rank, path: seq<Step>)
    requires Acyclic(env, rank) && !Obeyed(value, fields, "uniqueItems", env, rank)
    ensures Issue(path, DuplicateItem) in ArrayIssues(value, fields, path)
  {
    DistinctBySize(value.items);
  }

  lemma {:induction false} RequiredReported(name: string, names: seq<Json>, own: seq<Field>, env: Env, path: seq<Step>)
    requires Str(name) in names && !HasKey(own, name) && name !in env.inherited
    ensures Issue(path, RequiredField(name)) in RequiredIssues(names, own, env, path)
  {
    OwnIsWritten(own, name);
    if names[0] != Str(name) { RequiredReported(name, names[1..], own, env, path); }
  }

  lemma LocalReported(kind: Kind, value: Json, node: Json, env: Env, rank: Rank, path: seq<Step>)
    requires Acyclic(env, rank) && Fault(kind, value, node, [], env, rank)
    requires !kind.InvalidNode? && !kind.RequiredField? && !kind.UnknownField? && !kind.TooFewProperties?
    ensures Issue(path, kind) in LocalIssues(value, FieldsOf(node), env, path)
  {
    var fields := FieldsOf(node);
    TypeRight(value, fields);
    BrokenIsFault(kind, value, node, env, rank);
    match kind
    case WrongType => TypeReported(value, fields, env, rank, path);
    case TooShort => StringReported(kind, value, fields, env, rank, path);
    case NoMatch => StringReported(kind, value, fields, env, rank, path);
    case NotAUri => StringReported(kind, value, fields, env, rank, path);
    case TooFewItems => FewReported(value, fields, env, rank, path);
    case DuplicateItem => DuplicateReported(value, fields, env, rank, path);
    case _ => ValueReported(kind, value, fields, env, rank, path);
  }

  lemma ObjectReported(kind: Kind, value: Json, node: Json, env: Env, rank: Rank, path: seq<Step>)
    requires Acyclic(env, rank) && Fault(kind, value, node, [], env, rank) && (kind.RequiredField? || kind.TooFewProperties?)
    ensures value.Obj? && Issue(path, kind) in ObjectIssues(value, FieldsOf(node), env, path)
  {
    var fields := FieldsOf(node);
    OwnIsWritten(fields, "required");
    if kind.RequiredField? {
      var names :| Written(fields, "required", Arr(names)) && Str(kind.name) in names;
      RequiredReported(kind.name, names, value.fields, env, path);
    } else {
      BrokenIsFault(kind, value, node, env, rank);
    }
  }

  lemma {:induction false} ItemsInclude(value: Json, k: nat, i: nat, node: Json, env: Env, rank: Rank, path: seq<Step>)
    requires Acyclic(env, rank) && value.Arr? && k <= i < |value.items| && !RunItems(value, k, node, env, rank, path).threw
    ensures var o := Run(value.items[i], node, env, rank, path + [Index(i)]);
            !o.threw && forall issue | issue in o.issues :: issue in RunItems(value, k, node, env, rank, path).issues
    decreases i - k
  {
    if k < i { ItemsInclude(value, k + 1, i, node, env, rank, path); }
  }

  lemma {:induction false} FieldsInclude(value: Json, k: nat, i: nat, fields: seq<Field>, env: Env, rank: Rank, path: seq<Step>)
    requires Acyclic(env, rank) && value.Obj? && k <= i < |value.fields| && !RunFields(value, k, fields, env, rank, path).threw
    ensures var o := RunField(value, i, fields, env, rank, path);
            !o.threw && forall issue | issue in o.issues :: issue in RunFields(value, k, fields, env, rank, path).issues
    decreases i - k
  {
    if k < i { FieldsInclude(value, k + 1, i, fields, env, rank, path); }
  }

  lemma UnknownReported(value: Json, node: Json, key: string, env: Env, rank: Rank, path: seq<Step>)
    requires Acyclic(env, rank) && Fault(UnknownField, value, node, [Key(key)], env, rank)
    requires !RunFields(value, 0, FieldsOf(node), env, rank, path).threw
    ensures Issue(path + [Key(key)], UnknownField) in RunFields(value, 0, FieldsOf(node), env, rank, path).issues
  {
    var fields := FieldsOf(node);
    assert [Key(key)][0].key == key;
    var i :| 0 <= i < |value.fields| && value.fields[i].key == key;
    OwnIsWritten(fields, "properties");
    OwnIsWritten(fields, "additionalProperties");
    OwnIsWritten(PropertiesOf(fields), key);
    if Own(PropertiesOf(fields), key).Some? {
      assert Written(fields, "properties", Obj(PropertiesOf(fields)));
      assert Listed(fields, key, Own(PropertiesOf(fields), key).value);
    }
    assert ChildOf(fields, key, env.inherited).Unknown?;
    FieldsInclude(value, 0, i, fields, env, rank, path);
  }

  /** The issues of a node without a reference, put together. */
  lemma KeywordsInclude(value: Json, fields: seq<Field>, env: Env, rank: Rank, path: seq<Step>)
    requires Acyclic(env, rank) && !RunKeywords(value, fields, env, rank, path).threw
    ensures var all := RunKeywords(value, fields, env, rank, path).issues;
            && (forall issue | issue in LocalIssues(value, fields, env, path) :: issue in all)
            && (TypeAllowed(value, fields) && value.Arr? && Own(fields, "items").Some? ==>
                  var items := RunItems(value, 0, Own(fields, "items").value, env, rank, path);
                  !items.threw && forall issue | issue in items.issues :: issue in all)
            && (TypeAllowed(value, fields) && value.Obj? ==>
                  && (forall issue | issue in ObjectIssues(value, fields, env, path) :: issue in all)
                  && !RunFields(value, 0, fields, env, rank, path).threw
                  && forall issue | issue in RunFields(value, 0, fields, env, rank, path).issues :: issue in all)
  {
    TypeRight(value, fields);
  }

  lemma FaultReportedHere(kind: Kind, value: Json, node: Json, beyond: seq<Step>, env: Env, rank: Rank, path: seq<Step>)
    requires Acyclic(env, rank) && RefOf(node).None? && Fault(kind, value, node, beyond, env, rank)
    requires !Run(value, node, env, rank, path).threw
    ensures Issue(path + beyond, kind) in Run(value, node, env, rank, path).issues
  {
    assert path + [] == path;
    if IsObject(node) {
      assert Run(value, node, env, rank, path) == RunKeywords(value, FieldsOf(node), env, rank, path);
      KeywordsInclude(value, FieldsOf(node), env, rank, path);
      match kind
      case InvalidNode =>
      case UnknownField => UnknownReported(value, node, beyond[0].key, env, rank, path);
      case RequiredField(_) => ObjectReported(kind, value, node, env, rank, path);
      case TooFewProperties => ObjectReported(kind, value, node, env, rank, path);
      case _ => LocalReported(kind, value, node, env, rank, path);
    }
  }

  lemma ItemIssues(value: Json, i: nat, node: Json, env: Env, rank: Rank, path: seq<Step>)
    requires Acyclic(env, rank) && RefOf(node).None? && IsObject(node) && TypeAllowed(value, FieldsOf(node))
    requires value.Arr? && i < |value.items| && Own(FieldsOf(node), "items").Some? && !Run(value, node, env, rank, path).threw
    ensures var o := Run(value.items[i], Own(FieldsOf(node), "items").value, env, rank, path + [Index(i)]);
            !o.threw && forall issue | issue in o.issues :: issue in Run(value, node, env, rank, path).issues
  {
    KeywordsInclude(value, FieldsOf(node), env, rank, path);
    ItemsInclude(value, 0, i, Own(FieldsOf(node), "items").value, env, rank, path);
  }

  lemma FieldIssues(value: Json, j: nat, node: Json, child: Json, env: Env, rank: Rank, path: seq<Step>)
    requires Acyclic(env, rank) && RefOf(node).None? && IsObject(node) && TypeAllowed(value, FieldsOf(node))
    requires value.Obj? && j < |value.fields| && !Run(value, node, env, rank, path).threw
    requires ChildOf(FieldsOf(node), value.fields[j].key, env.inherited) == Against(child)
    ensures var o := Run(value.fields[j].value, child, env, rank, path + [Key(value.fields[j].key)]);
            !o.threw && forall issue | issue in o.issues :: issue in Run(value, node, env, rank, path).issues
  {
    KeywordsInclude(value, FieldsOf(node), env, rank, path);
    FieldsInclude(value, 0, j, FieldsOf(node), env, rank, path);
  }

  lemma OneStepOn(path: seq<Step>, steps: seq<Step>, beyond: seq<Step>)
    requires steps != []
    ensures path + steps + beyond == path + [steps[0]] + steps[1..] + beyond
  {
    assert [steps[0]] + steps[1..] == steps;
    Assoc(path, [steps[0]], steps[1..]);
  }

  /** Whatever fault there is in a part that is checked, it is among the issues, unless an unresolved reference ended the run. */
  lemma {:induction false} FaultsAreReported(kind: Kind, beyond: seq<Step>, value: Json, node: Json, env: Env, rank: Rank,
                                             path: seq<Step>, steps: seq<Step>, part: Json, final: Json)
    requires Acyclic(env, rank) && !Run(value, node, env, rank, path).threw
    requires Checked(value, node, env, rank, steps, part, final) && Fault(kind, part, final, beyond, env, rank)
    ensures Issue(path + steps + beyond, kind) in Run(value, node, env, rank, path).issues
    decreases |steps|, Remaining(node, rank), 1
  {
    var fields := FieldsOf(node);
    if RefOf(node).Some? {
      var resolved := Resolve(env.root, RefOf(node).value, env.inherited).value;
      FaultsAreReported(kind, beyond, value, resolved, env, rank, path, steps, part, final);
    } else if steps == [] {
      assert path + [] == path;
      FaultReportedHere(kind, value, node, beyond, env, rank, path);
    } else {
      OneStepOn(path, steps, beyond);
      FaultReportedInPart(kind, beyond, value, node, env, rank, path, steps, part, final);
    }
  }

  lemma {:induction false} FaultReportedInPart(kind: Kind, beyond: seq<Step>, value: Json, node: Json, env: Env, rank: Rank,
                                               path: seq<Step>, steps: seq<Step>, part: Json, final: Json)
    requires Acyclic(env, rank) && !Run(value, node, env, rank, path).threw && RefOf(node).None? && steps != []
    requires Checked(value, node, env, rank, steps, part, final) && Fault(kind, part, final, beyond, env, rank)
    ensures Issue(path + [steps[0]] + steps[1..] + beyond, kind) in Run(value, node, env, rank, path).issues
    decreases |steps|, 0, 0
  {
    match steps[0]
    case Index(i) =>
      ItemIssues(value, i, node, env, rank, path);
      FaultsAreReported(kind, beyond, value.items[i], Own(FieldsOf(node), "items").value, env, rank, path + [Index(i)],
                        steps[1..], part, final);
    case Key(key) =>
      var child := ChildOf(FieldsOf(node), key, env.inherited).node;
      var j :| 0 <= j < |value.fields| && value.fields[j].key == key && Checked(value.fields[j].value, child, env, rank, steps[1..], part, final);
      FieldIssues(value, j, node, child, env, rank, path);
      FaultsAreReported(kind, beyond, value.fields[j].value, child, env, rank, path + [Key(key)], steps[1..], part, final);
  }

  /** The issues of a run that no unresolved reference ended are exactly the faults of the value. */
  lemma IssuesExactlyFaults(issue: Issue, value: Json, node: Json, env: Env, rank: Rank, path: seq<Step>)
    requires Acyclic(env, rank) && !Run(value, node, env, rank, path).threw
    ensures issue in Run(value, node, env, rank, path).issues <==> Justified(issue, value, node, env, rank, path)
  {
    if issue in Run(value, node, env, rank, path).issues { IssuesAreFaults(issue, value, node, env, rank, path); }
    if Justified(issue, value, node, env, rank, path) {
      var steps, beyond, part, final :|
        issue.path == path + steps + beyond && Checked(value, node, env, rank, steps, part, final) &&
        Fault(issue.kind, part, final, beyond, env, rank);
      FaultsAreReported(issue.kind, beyond, value, node, env, rank, path, steps, part, final);
    }
  }
}
