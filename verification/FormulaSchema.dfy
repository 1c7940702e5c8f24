/** The interpreter of the JSON Schema keywords that the formula contract uses. */
module FormulaSchema {
  import opened Sequences
  import opened Strings
  import opened Wrappers
  import opened JsonPointer

  datatype Step = Index(i: nat) | Key(key: string)

  datatype Kind =
    | InvalidNode
    | NotTheConstant
    | OutsideEnum
    | WrongType
    | TooShort
    | NoMatch
    | NotAUri
    | BelowMinimum
    | TooFewItems
    | DuplicateItem
    | RequiredField(name: string)
    | TooFewProperties
    | UnknownField

  datatype Issue = Issue(path: seq<Step>, kind: Kind)

  /** Issues found, and whether an unresolved reference ended the validation. */
  datatype Outcome = Outcome(issues: seq<Issue>, threw: bool)

  /** The schema, the two checks that are left to the host language, and the names its objects inherit. */
  datatype Env = Env(root: Json, matches: (string, string) -> bool, isUri: string -> bool, inherited: set<string>)

  // ----- References

  function RefOf(node: Json): Option<string>
  {
    if node.Obj? && Own(node.fields, "$ref").Some? && Own(node.fields, "$ref").value.Str?
    then Some(Own(node.fields, "$ref").value.text) else None
  }

  /** How many references in a row can follow one. */
  type Rank = string -> nat

  /** References that lead straight to references do not lead around in a circle. */
  ghost predicate Acyclic(env: Env, rank: Rank)
  {
    forall r :: NextRef(env, r).Some? ==> rank(NextRef(env, r).value) < rank(r)
  }

  function NextRef(env: Env, r: string): Option<string>
  {
    match Resolve(env.root, r, env.inherited)
    case None => None
    case Some(node) => RefOf(node)
  }

  /** The n-th of the references that follow each other from one on. */
  function Following(env: Env, r: string, n: nat): Option<string>
  {
    if n == 0 then Some(r)
    else
      match Following(env, r, n - 1)
      case None => None
      case Some(last) => NextRef(env, last)
  }

  ghost predicate ChainEnds(env: Env, r: string)
  {
    exists n :: Following(env, r, n).None?
  }

  lemma {:induction false} FollowingNext(env: Env, r: string, n: nat)
    requires NextRef(env, r).Some?
    ensures Following(env, r, n + 1) == Following(env, NextRef(env, r).value, n)
  {
    if n > 0 { FollowingNext(env, r, n - 1); }
  }

  lemma {:induction false} FollowingShort(env: Env, rank: Rank, r: string, n: nat)
    requires Acyclic(env, rank) && Following(env, r, n).Some?
    ensures rank(Following(env, r, n).value) + n <= rank(r)
  {
    if n > 0 {
      FollowingShort(env, rank, r, n - 1);
      assert rank(NextRef(env, Following(env, r, n - 1).value).value) < rank(Following(env, r, n - 1).value);
    }
  }

  /** The number of references until the chain ends. */
  ghost function ChainLength(env: Env, r: string): (n: nat)
    requires ChainEnds(env, r)
    ensures Following(env, r, n).None? && forall m: nat | m < n :: Following(env, r, m).Some?
  {
    var n :| Following(env, r, n).None?;
    Shortest(env, r, n)
  }

  ghost function Shortest(env: Env, r: string, n: nat): (m: nat)
    requires Following(env, r, n).None?
    ensures Following(env, r, m).None? && forall k: nat | k < m :: Following(env, r, k).Some?
    decreases n
  {
    if n > 0 && Following(env, r, n - 1).None? then Shortest(env, r, n - 1)
    else
      StaysNone(env, r, n);
      n
  }

  lemma {:induction false} StaysNone(env: Env, r: string, n: nat)
    requires n > 0 ==> Following(env, r, n - 1).Some?
    ensures forall k: nat | k < n :: Following(env, r, k).Some?
  {
    if n > 1 { StaysNone(env, r, n - 1); }
  }

  lemma ChainShrinks(env: Env, r: string)
    requires ChainEnds(env, r) && NextRef(env, r).Some?
    ensures ChainEnds(env, NextRef(env, r).value)
    ensures ChainLength(env, NextRef(env, r).value) < ChainLength(env, r)
  {
    var n := ChainLength(env, r);
    assert n > 0 && Following(env, r, (n - 1) + 1).None?;
    FollowingNext(env, r, n - 1);
    EndsBy(env, NextRef(env, r).value, n - 1);
  }

  lemma EndsBy(env: Env, r: string, n: nat)
    requires Following(env, r, n).None?
    ensures ChainEnds(env, r) && ChainLength(env, r) <= n
  {
  }

  ghost function LengthRank(env: Env): Rank
  {
    (r: string) => if ChainEnds(env, r) then ChainLength(env, r) else 0
  }

  lemma LengthsRank(env: Env)
    requires forall r :: ChainEnds(env, r)
    ensures Acyclic(env, LengthRank(env))
  {
    forall r | NextRef(env, r).Some?
      ensures LengthRank(env)(NextRef(env, r).value) < LengthRank(env)(r)
    {
      ChainShrinks(env, r);
    }
  }

  lemma RankedEnds(env: Env, rank: Rank, r: string)
    requires Acyclic(env, rank)
    ensures ChainEnds(env, r)
  {
    if Following(env, r, rank(r) + 1).Some? { FollowingShort(env, rank, r, rank(r) + 1); }
  }

  /** Reference chains can be ranked exactly when none of them leads around for ever; following one that does never ends. */
  lemma RankedIffChainsEnd(env: Env)
    ensures (exists rank :: Acyclic(env, rank)) <==> forall r :: ChainEnds(env, r)
  {
    if forall r :: ChainEnds(env, r) { LengthsRank(env); }
    if rank :| Acyclic(env, rank) {
      forall r ensures ChainEnds(env, r) { RankedEnds(env, rank, r); }
    }
  }

  ghost function Remaining(node: Json, rank: Rank): nat
  {
    match RefOf(node)
    case None => 0
    case Some(r) => rank(r) + 1
  }

  // ----- Single keywords, as they are checked

  function When(condition: bool, path: seq<Step>, kind: Kind): seq<Issue>
  {
    if condition then [Issue(path, kind)] else []
  }

  function Number(fields: seq<Field>, key: string): Option<real>
  {
    match Own(fields, key)
    case Some(Num(x)) => Some(x)
    case _ => None
  }

  const MAX_SAFE: int := 9_007_199_254_740_991

  predicate TypeMatches(value: Json, name: string)
  {
    if name == "null" then value.Null?
    else if name == "array" then value.Arr?
    else if name == "object" then value.Obj?
    else if name == "integer" then
      value.Num? && value.number == value.number.Floor as real && -MAX_SAFE <= value.number.Floor <= MAX_SAFE
    else if name == "number" then value.Num?
    else if name == "string" then value.Str?
    else name == "boolean" && value.Bool?
  }

  function Texts(items: seq<Json>): seq<string>
  {
    if items == [] then [] else (if items[0].Str? then [items[0].text] else []) + Texts(items[1..])
  }

  function DeclaredTypes(fields: seq<Field>): seq<string>
  {
    match Own(fields, "type")
    case Some(Arr(items)) => Texts(items)
    case Some(Str(name)) => [name]
    case _ => []
  }

  function ConstIssues(value: Json, fields: seq<Field>, path: seq<Step>): seq<Issue>
  {
    When(Own(fields, "const").Some? && Own(fields, "const").value != value, path, NotTheConstant)
  }

  function EnumIssues(value: Json, fields: seq<Field>, path: seq<Step>): seq<Issue>
  {
    match Own(fields, "enum")
    case Some(Arr(items)) => When(value !in items, path, OutsideEnum)
    case _ => []
  }

  predicate WrongTypeFor(value: Json, fields: seq<Field>)
  {
    DeclaredTypes(fields) != [] && forall i | 0 <= i < |DeclaredTypes(fields)| :: !TypeMatches(value, DeclaredTypes(fields)[i])
  }

  function StringIssues(value: Json, fields: seq<Field>, env: Env, path: seq<Step>): seq<Issue>
  {
    if !value.Str? then []
    else
      var least, pattern := Number(fields, "minLength"), Own(fields, "pattern");
      When(least.Some? && |value.text| as real < least.value, path, TooShort) +
      When(pattern.Some? && pattern.value.Str? && !env.matches(pattern.value.text, value.text), path, NoMatch) +
      When(Own(fields, "format") == Some(Str("uri")) && !env.isUri(value.text), path, NotAUri)
  }

  function NumberIssues(value: Json, fields: seq<Field>, path: seq<Step>): seq<Issue>
  {
    var least := Number(fields, "minimum");
    When(value.Num? && least.Some? && value.number < least.value, path, BelowMinimum)
  }

  function ItemSet(items: seq<Json>): set<Json>
  {
    set x | x in items
  }

  function ArrayIssues(value: Json, fields: seq<Field>, path: seq<Step>): seq<Issue>
  {
    if !value.Arr? then []
    else
      var least := Number(fields, "minItems");
      When(least.Some? && |value.items| as real < least.value, path, TooFewItems) +
      When(Own(fields, "uniqueItems") == Some(Bool(true)) && |ItemSet(value.items)| != |value.items|, path, DuplicateItem)
  }

  function RequiredIssues(names: seq<Json>, own: seq<Field>, env: Env, path: seq<Step>): seq<Issue>
  {
    if names == [] then []
    else
      (if names[0].Str?
       then When(Lookup(own, names[0].text, env.inherited).None?, path, RequiredField(names[0].text)) else []) +
      RequiredIssues(names[1..], own, env, path)
  }

  function ObjectIssues(value: Json, fields: seq<Field>, env: Env, path: seq<Step>): seq<Issue>
  {
    if !value.Obj? then []
    else
      var least := Number(fields, "minProperties");
      (match Own(fields, "required")
       case Some(Arr(names)) => RequiredIssues(names, value.fields, env, path)
       case _ => []) +
      When(least.Some? && |value.fields| as real < least.value, path, TooFewProperties)
  }

  /** How a field of the value is checked: against a node, not at all, or not allowed. */
  datatype Child = Against(node: Json) | Unknown | Free

  function PropertiesOf(fields: seq<Field>): seq<Field>
  {
    match Own(fields, "properties")
    case Some(Obj(properties)) => properties
    case _ => []
  }

  function ChildOf(fields: seq<Field>, key: string, inherited: set<string>): Child
  {
    var additional := Own(fields, "additionalProperties");
    if Lookup(PropertiesOf(fields), key, inherited).Some? then Against(Lookup(PropertiesOf(fields), key, inherited).value)
    else if additional == Some(Bool(false)) then Unknown
    else if additional.Some? && additional.value.Obj? then Against(additional.value)
    else Free
  }

  // ----- The interpreter

  function Then(a: Outcome, b: Outcome): Outcome
  {
    if a.threw then a else Outcome(a.issues + b.issues, b.threw)
  }

  function LocalIssues(value: Json, fields: seq<Field>, env: Env, path: seq<Step>): seq<Issue>
  {
    ConstIssues(value, fields, path) + EnumIssues(value, fields, path) +
    if WrongTypeFor(value, fields) then [Issue(path, WrongType)]
    else StringIssues(value, fields, env, path) + NumberIssues(value, fields, path) + ArrayIssues(value, fields, path)
  }

  function Run(value: Json, node: Json, env: Env, ghost rank: Rank, path: seq<Step>): Outcome
    requires Acyclic(env, rank)
    decreases value, Remaining(node, rank), 2, 0
  {
    if !IsObject(node) then Outcome([Issue(path, InvalidNode)], false)
    else if RefOf(node).Some? then
      var resolved := Resolve(env.root, RefOf(node).value, env.inherited);
      if resolved.None? then Outcome([], true)
      else
        assert resolved.value == Resolve(env.root, RefOf(node).value, env.inherited).value;
        assert NextRef(env, RefOf(node).value) == RefOf(resolved.value);
        Run(value, resolved.value, env, rank, path)
    else RunKeywords(value, FieldsOf(node), env, rank, path)
  }

  function RunKeywords(value: Json, fields: seq<Field>, env: Env, ghost rank: Rank, path: seq<Step>): Outcome
    requires Acyclic(env, rank)
    decreases value, 0, 1, 0
  {
    var first := Outcome(LocalIssues(value, fields, env, path), false);
    if WrongTypeFor(value, fields) then first
    else if value.Arr? && Own(fields, "items").Some? then
      Then(first, RunItems(value, 0, Own(fields, "items").value, env, rank, path))
    else if value.Obj? then
      Then(Then(first, Outcome(ObjectIssues(value, fields, env, path), false)), RunFields(value, 0, fields, env, rank, path))
    else first
  }

  function RunItems(value: Json, k: nat, node: Json, env: Env, ghost rank: Rank, path: seq<Step>): Outcome
    requires Acyclic(env, rank) && value.Arr? && k <= |value.items|
    decreases value, 0, 0, |value.items| - k
  {
    if k == |value.items| then Outcome([], false)
    else Then(Run(value.items[k], node, env, rank, path + [Index(k)]), RunItems(value, k + 1, node, env, rank, path))
  }

  function RunField(value: Json, k: nat, fields: seq<Field>, env: Env, ghost rank: Rank, path: seq<Step>): Outcome
    requires Acyclic(env, rank) && value.Obj? && k < |value.fields|
    decreases value, 0, 0, 0
  {
    var key := value.fields[k].key;
    match ChildOf(fields, key, env.inherited)
    case Against(node) => Run(value.fields[k].value, node, env, rank, path + [Key(key)])
    case Unknown => Outcome([Issue(path + [Key(key)], UnknownField)], false)
    case Free => Outcome([], false)
  }

  function RunFields(value: Json, k: nat, fields: seq<Field>, env: Env, ghost rank: Rank, path: seq<Step>): Outcome
    requires Acyclic(env, rank) && value.Obj? && k <= |value.fields|
    decreases value, 0, 0, |value.fields| - k + 1
  {
    if k == |value.fields| then Outcome([], false)
    else Then(RunField(value, k, fields, env, rank, path), RunFields(value, k + 1, fields, env, rank, path))
  }

  // ----- What the keywords mean

  ghost predicate Declares(fields: seq<Field>, name: string)
  {
    || Own(fields, "type") == Some(Str(name))
    || (Own(fields, "type").Some? && Own(fields, "type").value.Arr? && Str(name) in Own(fields, "type").value.items)
  }

  ghost predicate TypeHolds(value: Json, fields: seq<Field>)
  {
    (forall name :: !Declares(fields, name)) || exists name :: Declares(fields, name) && TypeMatches(value, name)
  }

  ghost predicate Distinct(items: seq<Json>)
  {
    forall i, j | 0 <= i < j < |items| :: items[i] != items[j]
  }

  ghost predicate ValueHolds(value: Json, fields: seq<Field>)
  {
    && (Own(fields, "const").Some? ==> value == Own(fields, "const").value)
    && (Own(fields, "enum").Some? && Own(fields, "enum").value.Arr? ==> value in Own(fields, "enum").value.items)
    && TypeHolds(value, fields)
    && (value.Num? && Number(fields, "minimum").Some? ==> value.number >= Number(fields, "minimum").value)
  }

  ghost predicate StringHolds(value: Json, fields: seq<Field>, env: Env)
  {
    value.Str? ==>
      && (Number(fields, "minLength").Some? ==> |value.text| as real >= Number(fields, "minLength").value)
      && (Own(fields, "pattern").Some? && Own(fields, "pattern").value.Str? ==>
            env.matches(Own(fields, "pattern").value.text, value.text))
      && (Own(fields, "format") == Some(Str("uri")) ==> env.isUri(value.text))
  }

  ghost predicate ArrayHolds(value: Json, fields: seq<Field>)
  {
    value.Arr? ==>
      && (Number(fields, "minItems").Some? ==> |value.items| as real >= Number(fields, "minItems").value)
      && (Own(fields, "uniqueItems") == Some(Bool(true)) ==> Distinct(value.items))
  }

  ghost predicate ObjectHolds(value: Json, fields: seq<Field>, env: Env)
  {
    value.Obj? ==>
      && (Number(fields, "minProperties").Some? ==> |value.fields| as real >= Number(fields, "minProperties").value)
      && (Own(fields, "required").Some? && Own(fields, "required").value.Arr? ==>
            forall n | n in Own(fields, "required").value.items && n.Str? :: Lookup(value.fields, n.text, env.inherited).Some?)
  }

  /** The value satisfies a schema node: every keyword holds, of the value and of its parts. */
  ghost predicate Satisfies(value: Json, node: Json, env: Env, rank: Rank)
    requires Acyclic(env, rank)
    decreases value, Remaining(node, rank), 3
  {
    && IsObject(node)
    && (RefOf(node).Some? ==>
          && Resolve(env.root, RefOf(node).value, env.inherited).Some?
          && var resolved := Resolve(env.root, RefOf(node).value, env.inherited).value;
             NextRef(env, RefOf(node).value) == RefOf(resolved) && Satisfies(value, resolved, env, rank))
    && (RefOf(node).None? ==> KeywordsHold(value, FieldsOf(node), env, rank))
  }

  ghost predicate KeywordsHold(value: Json, fields: seq<Field>, env: Env, rank: Rank)
    requires Acyclic(env, rank)
    decreases value, 0, 2
  {
    && ValueHolds(value, fields) && StringHolds(value, fields, env) && ArrayHolds(value, fields) && ObjectHolds(value, fields, env)
    && (value.Arr? && Own(fields, "items").Some? ==> ItemsHold(value, Own(fields, "items").value, env, rank))
    && (value.Obj? ==> FieldsHold(value, fields, env, rank))
  }

  ghost predicate ItemsHold(value: Json, node: Json, env: Env, rank: Rank)
    requires Acyclic(env, rank) && value.Arr?
    decreases value, 0, 1
  {
    forall i | 0 <= i < |value.items| :: Satisfies(value.items[i], node, env, rank)
  }

  ghost predicate FieldsHold(value: Json, fields: seq<Field>, env: Env, rank: Rank)
    requires Acyclic(env, rank) && value.Obj?
    decreases value, 0, 1
  {
    forall i | 0 <= i < |value.fields| ::
      var child := ChildOf(fields, value.fields[i].key, env.inherited);
      !child.Unknown? && (child.Against? ==> Satisfies(value.fields[i].value, child.node, env, rank))
  }

  ghost predicate ItemHolds(value: Json, i: nat, node: Json, env: Env, rank: Rank)
    requires Acyclic(env, rank) && value.Arr? && i < |value.items|
  {
    Satisfies(value.items[i], node, env, rank)
  }

  lemma ItemByItem(value: Json, node: Json, env: Env, rank: Rank)
    requires Acyclic(env, rank) && value.Arr?
    ensures ItemsHold(value, node, env, rank) <==> forall i | 0 <= i < |value.items| :: ItemHolds(value, i, node, env, rank)
  {
    if forall i | 0 <= i < |value.items| :: ItemHolds(value, i, node, env, rank) {
      forall i | 0 <= i < |value.items|
        ensures Satisfies(value.items[i], node, env, rank)
      {
        assert ItemHolds(value, i, node, env, rank);
      }
    }
  }

  ghost predicate FieldHolds(value: Json, i: nat, fields: seq<Field>, env: Env, rank: Rank)
    requires Acyclic(env, rank) && value.Obj? && i < |value.fields|
  {
    var child := ChildOf(fields, value.fields[i].key, env.inherited);
    !child.Unknown? && (child.Against? ==> Satisfies(value.fields[i].value, child.node, env, rank))
  }

  lemma FieldByField(value: Json, fields: seq<Field>, env: Env, rank: Rank)
    requires Acyclic(env, rank) && value.Obj?
    ensures FieldsHold(value, fields, env, rank) <==> forall i | 0 <= i < |value.fields| :: FieldHolds(value, i, fields, env, rank)
  {
    if forall i | 0 <= i < |value.fields| :: FieldHolds(value, i, fields, env, rank) {
      forall i | 0 <= i < |value.fields|
        ensures var child := ChildOf(fields, value.fields[i].key, env.inherited);
                !child.Unknown? && (child.Against? ==> Satisfies(value.fields[i].value, child.node, env, rank))
      {
        assert FieldHolds(value, i, fields, env, rank);
      }
    }
  }

  // ----- No issues exactly when the value satisfies the schema

  predicate Clean(o: Outcome)
  {
    !o.threw && o.issues == []
  }

  lemma ThenClean(a: Outcome, b: Outcome)
    ensures Clean(Then(a, b)) <==> Clean(a) && Clean(b)
  {
  }

  lemma {:induction false} TextsMembers(items: seq<Json>, name: string)
    ensures name in Texts(items) <==> Str(name) in items
  {
    if items != [] {
      TextsMembers(items[1..], name);
      assert items == [items[0]] + items[1..];
    }
  }

  lemma DeclaredMembers(fields: seq<Field>, name: string)
    ensures name in DeclaredTypes(fields) <==> Declares(fields, name)
  {
    match Own(fields, "type")
    case Some(Arr(items)) => TextsMembers(items, name);
    case _ =>
  }

  lemma TypeIssue(value: Json, fields: seq<Field>)
    ensures WrongTypeFor(value, fields) <==> !TypeHolds(value, fields)
  {
    var names := DeclaredTypes(fields);
    forall name
      ensures name in names <==> Declares(fields, name)
    {
      DeclaredMembers(fields, name);
    }
    if names != [] { assert names[0] in names; }
    if exists name :: Declares(fields, name) && TypeMatches(value, name) {
      var name :| Declares(fields, name) && TypeMatches(value, name);
      var i :| 0 <= i < |names| && names[i] == name;
    }
    if names != [] && exists i | 0 <= i < |names| :: TypeMatches(value, names[i]) {
      var i :| 0 <= i < |names| && TypeMatches(value, names[i]);
      assert names[i] in names;
    }
  }

  /** A list has no duplicate exactly when its set is as large. */
  lemma {:induction false} DistinctBySize(items: seq<Json>)
    ensures |ItemSet(items)| <= |items|
    ensures |ItemSet(items)| == |items| <==> Distinct(items)
  {
    if items == [] {
      assert ItemSet(items) == {};
    } else {
      var init, last := items[..|items| - 1], items[|items| - 1];
      DistinctBySize(init);
      assert items == init + [last];
      assert ItemSet(items) == ItemSet(init) + {last};
      if last in init {
        var i :| 0 <= i < |init| && init[i] == last;
        assert items[i] == items[|items| - 1];
      }
    }
  }

  lemma {:induction false} RequiredClean(names: seq<Json>, own: seq<Field>, env: Env, path: seq<Step>)
    ensures RequiredIssues(names, own, env, path) == [] <==>
            forall n | n in names && n.Str? :: Lookup(own, n.text, env.inherited).Some?
  {
    if names != [] {
      RequiredClean(names[1..], own, env, path);
      assert names == [names[0]] + names[1..];
    }
  }

  lemma ObjectClean(value: Json, fields: seq<Field>, env: Env, path: seq<Step>)
    ensures ObjectIssues(value, fields, env, path) == [] <==> ObjectHolds(value, fields, env)
  {
    if value.Obj? {
      match Own(fields, "required")
      case Some(Arr(names)) => RequiredClean(names, value.fields, env, path);
      case _ =>
    }
  }

  lemma LocalClean(value: Json, fields: seq<Field>, env: Env, path: seq<Step>)
    ensures LocalIssues(value, fields, env, path) == [] <==>
            ValueHolds(value, fields) && StringHolds(value, fields, env) && ArrayHolds(value, fields)
  {
    TypeIssue(value, fields);
    if value.Arr? { DistinctBySize(value.items); }
  }

  /** The interpreter adds no issue, and does not fail, exactly when the value satisfies the schema node. */
  lemma {:induction false} RunCleanIffSatisfied(value: Json, node: Json, env: Env, rank: Rank, path: seq<Step>)
    requires Acyclic(env, rank)
    ensures Clean(Run(value, node, env, rank, path)) <==> Satisfies(value, node, env, rank)
    decreases value, Remaining(node, rank), 2, 0
  {
    if IsObject(node) {
      if RefOf(node).Some? {
        var resolved := Resolve(env.root, RefOf(node).value, env.inherited);
        if resolved.Some? {
          assert NextRef(env, RefOf(node).value) == RefOf(resolved.value);
          RunCleanIffSatisfied(value, resolved.value, env, rank, path);
        }
      } else {
        KeywordsCleanIffHold(value, FieldsOf(node), env, rank, path);
      }
    }
  }

  lemma WrongTypeIsAnIssue(value: Json, fields: seq<Field>, env: Env, path: seq<Step>)
    requires WrongTypeFor(value, fields)
    ensures LocalIssues(value, fields, env, path) != []
  {
  }

  lemma KeywordsClean(value: Json, fields: seq<Field>, env: Env, rank: Rank, path: seq<Step>)
    requires Acyclic(env, rank) && !WrongTypeFor(value, fields)
    ensures Clean(RunKeywords(value, fields, env, rank, path)) <==>
            && LocalIssues(value, fields, env, path) == []
            && (value.Arr? && Own(fields, "items").Some? ==> Clean(RunItems(value, 0, Own(fields, "items").value, env, rank, path)))
            && (value.Obj? ==> ObjectIssues(value, fields, env, path) == [] && Clean(RunFields(value, 0, fields, env, rank, path)))
  {
    var first := Outcome(LocalIssues(value, fields, env, path), false);
    if value.Arr? && Own(fields, "items").Some? {
      ThenClean(first, RunItems(value, 0, Own(fields, "items").value, env, rank, path));
    } else if value.Obj? {
      var whole := Outcome(ObjectIssues(value, fields, env, path), false);
      ThenClean(first, whole);
      ThenClean(Then(first, whole), RunFields(value, 0, fields, env, rank, path));
    }
  }

  lemma {:induction false} KeywordsCleanIffHold(value: Json, fields: seq<Field>, env: Env, rank: Rank, path: seq<Step>)
    requires Acyclic(env, rank)
    ensures Clean(RunKeywords(value, fields, env, rank, path)) <==> KeywordsHold(value, fields, env, rank)
    decreases value, 0, 1, 0
  {
    LocalClean(value, fields, env, path);
    ObjectClean(value, fields, env, path);
    if WrongTypeFor(value, fields) {
      WrongTypeIsAnIssue(value, fields, env, path);
    } else {
      KeywordsClean(value, fields, env, rank, path);
      if value.Arr? && Own(fields, "items").Some? {
        AllItemsClean(value, Own(fields, "items").value, env, rank, path);
      } else if value.Obj? {
        AllFieldsClean(value, fields, env, rank, path);
      }
    }
  }

  lemma {:induction false} AllItemsClean(value: Json, node: Json, env: Env, rank: Rank, path: seq<Step>)
    requires Acyclic(env, rank) && value.Arr?
    ensures Clean(RunItems(value, 0, node, env, rank, path)) <==> ItemsHold(value, node, env, rank)
    decreases value, 0, 0, |value.items| + 1
  {
    ItemsCleanIffSatisfied(value, 0, node, env, rank, path);
    ItemsHoldFromMeans(value, 0, node, env, rank);
    ItemByItem(value, node, env, rank);
  }

  lemma {:induction false} AllFieldsClean(value: Json, fields: seq<Field>, env: Env, rank: Rank, path: seq<Step>)
    requires Acyclic(env, rank) && value.Obj?
    ensures Clean(RunFields(value, 0, fields, env, rank, path)) <==> FieldsHold(value, fields, env, rank)
    decreases value, 0, 0, |value.fields| + 2
  {
    FieldsCleanIffSatisfied(value, 0, fields, env, rank, path);
    FieldsHoldFromMeans(value, 0, fields, env, rank);
    FieldByField(value, fields, env, rank);
  }

  lemma {:induction false} ItemCleanIffHolds(value: Json, k: nat, node: Json, env: Env, rank: Rank, path: seq<Step>)
    requires Acyclic(env, rank) && value.Arr? && k < |value.items|
    ensures Clean(Run(value.items[k], node, env, rank, path + [Index(k)])) <==> ItemHolds(value, k, node, env, rank)
    decreases value, 0, 0, 0
  {
    RunCleanIffSatisfied(value.items[k], node, env, rank, path + [Index(k)]);
  }

  ghost predicate ItemsHoldFrom(value: Json, k: nat, node: Json, env: Env, rank: Rank)
    requires Acyclic(env, rank) && value.Arr? && k <= |value.items|
    decreases |value.items| - k
  {
    k < |value.items| ==> ItemHolds(value, k, node, env, rank) && ItemsHoldFrom(value, k + 1, node, env, rank)
  }

  lemma {:induction false} ItemsHoldFromMeans(value: Json, k: nat, node: Json, env: Env, rank: Rank)
    requires Acyclic(env, rank) && value.Arr? && k <= |value.items|
    ensures ItemsHoldFrom(value, k, node, env, rank) <==> forall i | k <= i < |value.items| :: ItemHolds(value, i, node, env, rank)
    decreases |value.items| - k
  {
    if k < |value.items| { ItemsHoldFromMeans(value, k + 1, node, env, rank); }
  }

  lemma ItemsStep(value: Json, k: nat, node: Json, env: Env, rank: Rank, path: seq<Step>)
    requires Acyclic(env, rank) && value.Arr? && k < |value.items|
    ensures Clean(RunItems(value, k, node, env, rank, path)) <==>
            Clean(Run(value.items[k], node, env, rank, path + [Index(k)])) && Clean(RunItems(value, k + 1, node, env, rank, path))
  {
    ThenClean(Run(value.items[k], node, env, rank, path + [Index(k)]), RunItems(value, k + 1, node, env, rank, path));
  }

  lemma {:induction false} ItemsCleanIffSatisfied(value: Json, k: nat, node: Json, env: Env, rank: Rank, path: seq<Step>)
    requires Acyclic(env, rank) && value.Arr? && k <= |value.items|
    ensures Clean(RunItems(value, k, node, env, rank, path)) <==>
            ItemsHoldFrom(value, k, node, env, rank)
    decreases value, 0, 0, |value.items| - k
  {
    if k < |value.items| {
      ItemCleanIffHolds(value, k, node, env, rank, path);
      ItemsCleanIffSatisfied(value, k + 1, node, env, rank, path);
      ItemsStep(value, k, node, env, rank, path);
    }
  }

  lemma {:induction false} FieldCleanIffHolds(value: Json, k: nat, fields: seq<Field>, env: Env, rank: Rank, path: seq<Step>)
    requires Acyclic(env, rank) && value.Obj? && k < |value.fields|
    ensures Clean(RunField(value, k, fields, env, rank, path)) <==> FieldHolds(value, k, fields, env, rank)
    decreases value, 0, 0, 0
  {
    var key := value.fields[k].key;
    var child := ChildOf(fields, key, env.inherited);
    if child.Against? {
      RunCleanIffSatisfied(value.fields[k].value, child.node, env, rank, path + [Key(key)]);
    }
  }

  ghost predicate FieldsHoldFrom(value: Json, k: nat, fields: seq<Field>, env: Env, rank: Rank)
    requires Acyclic(env, rank) && value.Obj? && k <= |value.fields|
    decreases |value.fields| - k
  {
    k < |value.fields| ==> FieldHolds(value, k, fields, env, rank) && FieldsHoldFrom(value, k + 1, fields, env, rank)
  }

  lemma {:induction false} FieldsHoldFromMeans(value: Json, k: nat, fields: seq<Field>, env: Env, rank: Rank)
    requires Acyclic(env, rank) && value.Obj? && k <= |value.fields|
    ensures FieldsHoldFrom(value, k, fields, env, rank) <==> forall i | k <= i < |value.fields| :: FieldHolds(value, i, fields, env, rank)
    decreases |value.fields| - k
  {
    if k < |value.fields| { FieldsHoldFromMeans(value, k + 1, fields, env, rank); }
  }

  lemma FieldsStep(value: Json, k: nat, fields: seq<Field>, env: Env, rank: Rank, path: seq<Step>)
    requires Acyclic(env, rank) && value.Obj? && k < |value.fields|
    ensures Clean(RunFields(value, k, fields, env, rank, path)) <==>
            Clean(RunField(value, k, fields, env, rank, path)) && Clean(RunFields(value, k + 1, fields, env, rank, path))
  {
    ThenClean(RunField(value, k, fields, env, rank, path), RunFields(value, k + 1, fields, env, rank, path));
  }

  lemma {:induction false} FieldsCleanIffSatisfied(value: Json, k: nat, fields: seq<Field>, env: Env, rank: Rank, path: seq<Step>)
    requires Acyclic(env, rank) && value.Obj? && k <= |value.fields|
    ensures Clean(RunFields(value, k, fields, env, rank, path)) <==>
            FieldsHoldFrom(value, k, fields, env, rank)
    decreases value, 0, 0, |value.fields| - k + 1
  {
    if k < |value.fields| {
      FieldCleanIffHolds(value, k, fields, env, rank, path);
      FieldsCleanIffSatisfied(value, k + 1, fields, env, rank, path);
      FieldsStep(value, k, fields, env, rank, path);
    }
  }
}
