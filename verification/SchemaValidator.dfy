/** The interpreter as it runs: it pushes issues to one list, and stops when a reference cannot be resolved. */
module SchemaValidator {
  import opened Sequences
  import opened Strings
  import opened Wrappers
  import opened JsonPointer
  import opened FormulaSchema
  import opened SchemaKeywords

  class IssueLog {
    var items: seq<Issue>

    constructor ()
      ensures items == []
    {
      items := [];
    }

    method PushWhen(condition: bool, path: seq<Step>, kind: Kind)
      modifies this
      ensures items == old(items) + When(condition, path, kind)
    {
      if condition { items := items + [Issue(path, kind)]; }
    }
  }

  method CheckValue(value: Json, fields: seq<Field>, path: seq<Step>, log: IssueLog)
    modifies log
    ensures log.items == old(log.items) + (ConstIssues(value, fields, path) + EnumIssues(value, fields, path))
  {
    var constant, listed := Own(fields, "const"), Own(fields, "enum");
    log.PushWhen(constant.Some? && constant.value != value, path, NotTheConstant);
    if listed.Some? && listed.value.Arr? {
      log.PushWhen(value !in listed.value.items, path, OutsideEnum);
    }
    Assoc(old(log.items), ConstIssues(value, fields, path), EnumIssues(value, fields, path));
  }

  method CheckString(value: Json, fields: seq<Field>, env: Env, path: seq<Step>, log: IssueLog)
    modifies log
    ensures log.items == old(log.items) + StringIssues(value, fields, env, path)
  {
    if value.Str? {
      var least, pattern := Number(fields, "minLength"), Own(fields, "pattern");
      var short := least.Some? && |value.text| as real < least.value;
      var noMatch := pattern.Some? && pattern.value.Str? && !env.matches(pattern.value.text, value.text);
      var notUri := Own(fields, "format") == Some(Str("uri")) && !env.isUri(value.text);
      log.PushWhen(short, path, TooShort);
      log.PushWhen(noMatch, path, NoMatch);
      log.PushWhen(notUri, path, NotAUri);
      Assoc(old(log.items), When(short, path, TooShort), When(noMatch, path, NoMatch));
      Assoc(old(log.items), When(short, path, TooShort) + When(noMatch, path, NoMatch), When(notUri, path, NotAUri));
    }
  }

  method CheckArray(value: Json, fields: seq<Field>, path: seq<Step>, log: IssueLog)
    modifies log
    ensures log.items == old(log.items) + ArrayIssues(value, fields, path)
  {
    if value.Arr? {
      var least := Number(fields, "minItems");
      var few := least.Some? && |value.items| as real < least.value;
      var duplicate := Own(fields, "uniqueItems") == Some(Bool(true)) && |ItemSet(value.items)| != |value.items|;
      log.PushWhen(few, path, TooFewItems);
      log.PushWhen(duplicate, path, DuplicateItem);
      Assoc(old(log.items), When(few, path, TooFewItems), When(duplicate, path, DuplicateItem));
    }
  }

  /** Everything but the parts of the value. A wrong type ends the checks of this value. */
  method CheckLocal(value: Json, fields: seq<Field>, env: Env, path: seq<Step>, log: IssueLog) returns (wrongType: bool)
    modifies log
    ensures wrongType == WrongTypeFor(value, fields)
    ensures log.items == old(log.items) + LocalIssues(value, fields, env, path)
  {
    var first := ConstIssues(value, fields, path) + EnumIssues(value, fields, path);
    CheckValue(value, fields, path, log);
    wrongType := WrongTypeFor(value, fields);
    if wrongType {
      log.PushWhen(true, path, WrongType);
      Assoc(old(log.items), first, [Issue(path, WrongType)]);
    } else {
      var text, number, list := StringIssues(value, fields, env, path), NumberIssues(value, fields, path), ArrayIssues(value, fields, path);
      CheckString(value, fields, env, path, log);
      var least := Number(fields, "minimum");
      log.PushWhen(value.Num? && least.Some? && value.number < least.value, path, BelowMinimum);
      CheckArray(value, fields, path, log);
      FourParts(old(log.items), first, text, number, list);
    }
  }

  lemma FourParts<T>(a: seq<T>, b: seq<T>, c: seq<T>, d: seq<T>, e: seq<T>)
    ensures (((a + b) + c) + d) + e == a + (b + ((c + d) + e))
  {
    Assoc(a + b, c, d);
    Assoc(a + b, c + d, e);
    Assoc(a, b, (c + d) + e);
  }

  method CheckRequired(names: seq<Json>, own: seq<Field>, env: Env, path: seq<Step>, log: IssueLog)
    modifies log
    ensures log.items == old(log.items) + RequiredIssues(names, own, env, path)
  {
    for i := 0 to |names|
      invariant log.items + RequiredIssues(names[i..], own, env, path) == old(log.items) + RequiredIssues(names, own, env, path)
    {
      var missing := names[i].Str? && Lookup(own, names[i].text, env.inherited).None?;
      ghost var before, added := log.items, if names[i].Str? then When(missing, path, RequiredField(names[i].text)) else [];
      if names[i].Str? { log.PushWhen(missing, path, RequiredField(names[i].text)); }
      assert names[i..][1..] == names[i + 1..];
      Assoc(before, added, RequiredIssues(names[i + 1..], own, env, path));
    }
    assert names[|names|..] == [];
  }

  method CheckObject(value: Json, fields: seq<Field>, env: Env, path: seq<Step>, log: IssueLog)
    modifies log
    ensures log.items == old(log.items) + ObjectIssues(value, fields, env, path)
  {
    if value.Obj? {
      var least, required := Number(fields, "minProperties"), Own(fields, "required");
      var few := least.Some? && |value.fields| as real < least.value;
      ghost var missing := if required.Some? && required.value.Arr? then RequiredIssues(required.value.items, value.fields, env, path) else [];
      if required.Some? && required.value.Arr? { CheckRequired(required.value.items, value.fields, env, path, log); }
      log.PushWhen(few, path, TooFewProperties);
      Assoc(old(log.items), missing, When(few, path, TooFewProperties));
    }
  }

  /** Issues are only ever added behind those already there; the result says whether the validation failed. */
  method ValidateSchemaNode(value: Json, node: Json, env: Env, ghost rank: Rank, path: seq<Step>, log: IssueLog) returns (threw: bool)
    requires Acyclic(env, rank)
    modifies log
    ensures log.items == old(log.items) + Run(value, node, env, rank, path).issues && threw == Run(value, node, env, rank, path).threw
    decreases value, Remaining(node, rank), 2, 0
  {
    if !IsObject(node) {
      log.PushWhen(true, path, InvalidNode);
      return false;
    }
    var reference := RefOf(node);
    if reference.Some? {
      var resolved := ResolveJsonPointer(env.root, reference.value, env.inherited);
      if resolved.None? { return true; }
      assert NextRef(env, reference.value) == RefOf(resolved.value);
      threw := ValidateSchemaNode(value, resolved.value, env, rank, path, log);
    } else {
      threw := ValidateKeywords(value, FieldsOf(node), env, rank, path, log);
    }
  }

  method ValidateKeywords(value: Json, fields: seq<Field>, env: Env, ghost rank: Rank, path: seq<Step>, log: IssueLog) returns (threw: bool)
    requires Acyclic(env, rank)
    modifies log
    ensures log.items == old(log.items) + RunKeywords(value, fields, env, rank, path).issues
    ensures threw == RunKeywords(value, fields, env, rank, path).threw
    decreases value, 0, 1, 0
  {
    var wrongType := CheckLocal(value, fields, env, path, log);
    if wrongType { return false; }
    var items := Own(fields, "items");
    ghost var local := LocalIssues(value, fields, env, path);
    if value.Arr? && items.Some? {
      threw := ValidateItems(value, items.value, env, rank, path, log);
      Assoc(old(log.items), local, RunItems(value, 0, items.value, env, rank, path).issues);
    } else if value.Obj? {
      CheckObject(value, fields, env, path, log);
      Assoc(old(log.items), local, ObjectIssues(value, fields, env, path));
      threw := ValidateFields(value, fields, env, rank, path, log);
      Assoc(old(log.items), local + ObjectIssues(value, fields, env, path), RunFields(value, 0, fields, env, rank, path).issues);
    } else {
      threw := false;
    }
  }

  method ValidateItems(value: Json, node: Json, env: Env, ghost rank: Rank, path: seq<Step>, log: IssueLog) returns (threw: bool)
    requires Acyclic(env, rank) && value.Arr?
    modifies log
    ensures log.items == old(log.items) + RunItems(value, 0, node, env, rank, path).issues
    ensures threw == RunItems(value, 0, node, env, rank, path).threw
    decreases value, 0, 0, 1
  {
    ghost var all := RunItems(value, 0, node, env, rank, path);
    for index := 0 to |value.items|
      invariant log.items + RunItems(value, index, node, env, rank, path).issues == old(log.items) + all.issues
      invariant RunItems(value, index, node, env, rank, path).threw == all.threw
    {
      ghost var before, one := log.items, Run(value.items[index], node, env, rank, path + [Index(index)]);
      threw := ValidateSchemaNode(value.items[index], node, env, rank, path + [Index(index)], log);
      if threw { return; }
      Assoc(before, one.issues, RunItems(value, index + 1, node, env, rank, path).issues);
    }
    threw := false;
  }

  method ValidateField(value: Json, k: nat, fields: seq<Field>, env: Env, ghost rank: Rank, path: seq<Step>, log: IssueLog)
    returns (threw: bool)
    requires Acyclic(env, rank) && value.Obj? && k < |value.fields|
    modifies log
    ensures log.items == old(log.items) + RunField(value, k, fields, env, rank, path).issues
    ensures threw == RunField(value, k, fields, env, rank, path).threw
    decreases value, 0, 0, 0
  {
    var key := value.fields[k].key;
    var child := ChildOf(fields, key, env.inherited);
    if child.Against? {
      threw := ValidateSchemaNode(value.fields[k].value, child.node, env, rank, path + [Key(key)], log);
    } else {
      log.PushWhen(child.Unknown?, path + [Key(key)], UnknownField);
      threw := false;
    }
  }

  method ValidateFields(value: Json, fields: seq<Field>, env: Env, ghost rank: Rank, path: seq<Step>, log: IssueLog) returns (threw: bool)
    requires Acyclic(env, rank) && value.Obj?
    modifies log
    ensures log.items == old(log.items) + RunFields(value, 0, fields, env, rank, path).issues
    ensures threw == RunFields(value, 0, fields, env, rank, path).threw
    decreases value, 0, 0, 1
  {
    ghost var all := RunFields(value, 0, fields, env, rank, path);
    for k := 0 to |value.fields|
      invariant log.items + RunFields(value, k, fields, env, rank, path).issues == old(log.items) + all.issues
      invariant RunFields(value, k, fields, env, rank, path).threw == all.threw
    {
      ghost var before, one := log.items, RunField(value, k, fields, env, rank, path);
      threw := ValidateField(value, k, fields, env, rank, path, log);
      if threw { return; }
      Assoc(before, one.issues, RunFields(value, k + 1, fields, env, rank, path).issues);
    }
    threw := false;
  }

  datatype Validation = Failed | Issues(issues: seq<Issue>)

  /**
   The whole validation: its list of issues is empty exactly when the value satisfies the schema, and holds exactly the
   faults of the value, each with the path to it, unless a reference cannot be resolved.
   */
  method ValidateAgainstFormulaSchema(value: Json, env: Env, ghost rank: Rank) returns (validation: Validation)
    requires Acyclic(env, rank)
    ensures validation == Issues([]) <==> Satisfies(value, env.root, env, rank)
    ensures validation.Issues? ==> forall issue :: issue in validation.issues <==> Justified(issue, value, env.root, env, rank, [])
  {
    RunCleanIffSatisfied(value, env.root, env, rank, []);
    if !Run(value, env.root, env, rank, []).threw {
      forall issue
        ensures issue in Run(value, env.root, env, rank, []).issues <==> Justified(issue, value, env.root, env, rank, [])
      {
        IssuesExactlyFaults(issue, value, env.root, env, rank, []);
      }
    }
    var log := new IssueLog();
    var threw := ValidateSchemaNode(value, env.root, env, rank, [], log);
    validation := if threw then Failed else Issues(log.items);
  }
}
