/** Reading the list of packages to release. */
module ReleaseIdentities {
  import opened Sequences
  import opened Digits
  import opened Strings
  import opened Wrappers
  import opened PackageOrder
  import opened PackageTags
  import opened TagHistory

  datatype Field = Text(text: string) | OtherField

  /** One element of the parsed JSON list. */
  datatype Raw = NotAnObject | Object(fields: map<string, Field>)

  predicate CanonicalNumber(s: string)
  {
    s == "0" || (s != "" && '1' <= s[0] <= '9' && AllDigits(s))
  }

  /** Three numbers without leading zeros, separated by dots. */
  predicate StableVersion(version: string)
  {
    var parts := Split(version, '.');
    |parts| == 3 && forall i | 0 <= i < 3 :: CanonicalNumber(parts[i])
  }

  lemma NumTextCanonical(n: nat)
    ensures CanonicalNumber(NumText(n)) && '.' !in NumText(n)
  {
    NumRoundTrip(n);
    FirstDigit(ToDigits(n));
    if ToDigits(n)[0] == 0 {
      assert NumText(0) == Chars([0]) == "0";
    } else {
      assert NumText(n)[0] in NumText(n);
    }
  }

  lemma {:induction false} FirstDigit(ds: seq<Digit>)
    requires ds != []
    ensures Chars(ds)[0] == DigitChar(ds[0])
  {
    if |ds| > 1 { FirstDigit(ds[..|ds| - 1]); }
  }

  lemma {:induction false} NumeralIsText(s: string)
    requires s != "" && '1' <= s[0] <= '9' && AllDigits(s)
    ensures NumText(NumValue(s)) == s && NumValue(s) > 0
  {
    var init, d := s[..|s| - 1], DigitOf(s[|s| - 1]);
    LastDigit(s);
    if init == "" {
      OneDigit(d);
      assert NumValue(init) == 0;
    } else {
      assert init[0] == s[0];
      NumeralIsText(init);
      OneMoreDigit(NumValue(init), d);
    }
  }

  lemma LastDigit(s: string)
    requires s != "" && AllDigits(s)
    ensures var init, d := s[..|s| - 1], DigitOf(s[|s| - 1]);
            AllDigits(init) && s == init + [DigitChar(d)] && NumValue(s) == 10 * NumValue(init) + d as nat
  {
    var c := s[|s| - 1];
    assert DigitChar(DigitOf(c)) == c;
    assert s == s[..|s| - 1] + [c];
  }

  lemma OneDigit(d: Digit)
    ensures NumText(d as nat) == [DigitChar(d)]
  {
    assert ToDigits(d as nat) == [d];
    assert Chars([d]) == Chars([]) + [DigitChar(d)];
  }

  lemma OneMoreDigit(n: nat, d: Digit)
    requires n > 0
    ensures NumText(10 * n + d as nat) == NumText(n) + [DigitChar(d)]
  {
    var m := 10 * n + d as nat;
    assert m / 10 == n && m % 10 == d as nat;
    assert ToDigits(m) == ToDigits(n) + [d];
    assert (ToDigits(n) + [d])[..|ToDigits(n)|] == ToDigits(n);
  }

  /** A canonical number is the decimal text of some number. */
  lemma CanonicalIsText(s: string) returns (n: nat)
    requires CanonicalNumber(s)
    ensures s == NumText(n)
  {
    if s == "0" {
      n := 0;
      assert NumText(0) == Chars([0]) == "0";
    } else {
      n := NumValue(s);
      NumeralIsText(s);
    }
  }

  function VersionText(major: nat, minor: nat, patch: nat): string
  {
    NumText(major) + ("." + (NumText(minor) + ("." + NumText(patch))))
  }

  /** Stable versions are exactly the texts of three numbers with dots between them. */
  lemma StableVersionIff(version: string)
    ensures StableVersion(version) <==> exists major, minor, patch :: version == VersionText(major, minor, patch)
  {
    if StableVersion(version) {
      var parts := Split(version, '.');
      var major := CanonicalIsText(parts[0]);
      var minor := CanonicalIsText(parts[1]);
      var patch := CanonicalIsText(parts[2]);
      JoinThree(version);
      assert version == VersionText(major, minor, patch);
    }
    if major, minor, patch :| version == VersionText(major, minor, patch) {
      NumTextCanonical(major);
      NumTextCanonical(minor);
      NumTextCanonical(patch);
      SplitFirst(NumText(major), NumText(minor) + ("." + NumText(patch)), '.');
      SplitFirst(NumText(minor), NumText(patch), '.');
      SplitLast(NumText(patch), '.');
    }
  }

  lemma {:induction false} SplitFirstPart(s: string)
    ensures var parts := Split(s, '.');
            if |parts| == 1 then s == parts[0]
            else |parts[0]| < |s| && s == parts[0] + ("." + s[|parts[0]| + 1..]) && Split(s[|parts[0]| + 1..], '.') == parts[1..]
  {
    if s != "" && s[0] != '.' {
      SplitFirstPart(s[1..]);
      var parts := Split(s[1..], '.');
      assert s == [s[0]] + s[1..];
      if |parts| > 1 {
        assert s[|parts[0]| + 2..] == s[1..][|parts[0]| + 1..];
        Assoc([s[0]], parts[0], "." + s[|parts[0]| + 2..]);
      }
    } else if s != "" {
      assert s == "" + ("." + s[1..]);
    }
  }

  lemma JoinThree(version: string)
    requires |Split(version, '.')| == 3
    ensures var parts := Split(version, '.'); version == parts[0] + ("." + (parts[1] + ("." + parts[2])))
  {
    var parts := Split(version, '.');
    SplitFirstPart(version);
    var rest := version[|parts[0]| + 1..];
    SplitFirstPart(rest);
    assert Split(rest, '.') == parts[1..] && parts[1..][0] == parts[1] && parts[1..][1..] == [parts[2]];
    SplitFirstPart(rest[|parts[1]| + 1..]);
  }

  predicate WellFormed(raw: Raw, order: seq<string>)
  {
    && raw.Object? && raw.fields.Keys == {"name", "version"}
    && raw.fields["name"].Text? && raw.fields["name"].text in order
    && raw.fields["version"].Text? && StableVersion(raw.fields["version"].text)
  }

  function IdentityOf(raw: Raw, order: seq<string>): Identity
    requires WellFormed(raw, order)
  {
    Identity(raw.fields["name"].text, raw.fields["version"].text)
  }

  /** Names follow the publishing order, each at most once. */
  ghost predicate InOrder(packages: seq<Identity>, order: seq<string>)
  {
    forall i, j | 0 <= i < j < |packages| :: IndexOf(order, packages[i].name) < IndexOf(order, packages[j].name)
  }

  function ParseEntry(raw: Raw, order: seq<string>): Result<Identity>
  {
    if !raw.Object? then Err("must be an object")
    else if raw.fields.Keys != {"name", "version"} then Err("must contain only name and version")
    else
      var name, version := raw.fields["name"], raw.fields["version"];
      if !name.Text? || IndexOf(order, name.text) < 0 then Err("unknown publishable package")
      else if !version.Text? || !StableVersion(version.text) then Err("has no stable version")
      else Ok(Identity(name.text, version.text))
  }

  lemma ParsedEntry(raw: Raw, order: seq<string>)
    ensures ParseEntry(raw, order).Ok? <==> WellFormed(raw, order)
    ensures WellFormed(raw, order) ==> ParseEntry(raw, order) == Ok(IdentityOf(raw, order))
  {
    if raw.Object? && raw.fields.Keys == {"name", "version"} {
      assert "name" in raw.fields.Keys && "version" in raw.fields.Keys;
    }
  }

  ghost predicate AllWellFormed(entries: seq<Raw>, order: seq<string>)
  {
    forall i | 0 <= i < |entries| :: WellFormed(entries[i], order)
  }

  ghost function Identities(entries: seq<Raw>, order: seq<string>): (r: seq<Identity>)
    requires AllWellFormed(entries, order)
  {
    seq(|entries|, i requires 0 <= i < |entries| => IdentityOf(entries[i], order))
  }

  ghost predicate Accepted(entries: seq<Raw>, order: seq<string>)
  {
    AllWellFormed(entries, order) && InOrder(Identities(entries, order), order)
  }

  function LastIndex(packages: seq<Identity>, order: seq<string>): int
  {
    if packages == [] then -1 else IndexOf(order, packages[|packages| - 1].name)
  }

  /** What an element adds to an accepted list: it must be well formed, and later in the order than the last one. */
  ghost predicate Follows(raw: Raw, some: seq<Raw>, order: seq<string>)
    requires AllWellFormed(some, order)
  {
    WellFormed(raw, order) && LastIndex(Identities(some, order), order) < IndexOf(order, IdentityOf(raw, order).name)
  }

  lemma AppendedIdentities(some: seq<Raw>, raw: Raw, order: seq<string>)
    requires AllWellFormed(some, order) && WellFormed(raw, order)
    ensures AllWellFormed(some + [raw], order)
    ensures Identities(some + [raw], order) == Identities(some, order) + [IdentityOf(raw, order)]
  {
  }

  lemma InOrderAppend(packages: seq<Identity>, p: Identity, order: seq<string>)
    requires InOrder(packages, order) && p.name in order
    ensures InOrder(packages + [p], order) <==> LastIndex(packages, order) < IndexOf(order, p.name)
  {
    var more := packages + [p];
    if LastIndex(packages, order) < IndexOf(order, p.name) {
      forall i, j | 0 <= i < j < |more|
        ensures IndexOf(order, more[i].name) < IndexOf(order, more[j].name)
      {
        if j == |packages| && i < |packages| - 1 {
          assert IndexOf(order, packages[i].name) < IndexOf(order, packages[|packages| - 1].name);
        }
      }
    } else {
      assert packages != [] && more[|packages| - 1] == packages[|packages| - 1] && more[|packages|] == p;
    }
  }

  lemma NextEntry(some: seq<Raw>, raw: Raw, order: seq<string>)
    requires Accepted(some, order)
    ensures Accepted(some + [raw], order) <==> Follows(raw, some, order)
    ensures Follows(raw, some, order) ==> Identities(some + [raw], order) == Identities(some, order) + [IdentityOf(raw, order)]
  {
    assert (some + [raw])[|some|] == raw;
    if WellFormed(raw, order) {
      AppendedIdentities(some, raw, order);
      InOrderAppend(Identities(some, order), IdentityOf(raw, order), order);
    }
  }

  lemma AcceptedPrefix(entries: seq<Raw>, order: seq<string>, i: nat)
    requires i <= |entries| && Accepted(entries, order)
    ensures Accepted(entries[..i], order)
  {
    var some := entries[..i];
    assert forall j | 0 <= j < i :: some[j] == entries[j];
    assert AllWellFormed(some, order);
    assert forall j | 0 <= j < i :: Identities(some, order)[j] == Identities(entries, order)[j];
  }

  /** The order already rules out a second entry of the same name. */
  lemma NameIsNew(packages: seq<Identity>, order: seq<string>, name: string)
    requires InOrder(packages, order) && LastIndex(packages, order) < IndexOf(order, name)
    ensures forall p | p in packages :: p.name != name
  {
  }

  /** The list is accepted exactly when every element is well formed and the names follow the publishing order. */
  method ParsePackageReleaseIdentities(value: Option<seq<Raw>>, order: seq<string>, allowEmpty: bool)
    returns (result: Result<seq<Identity>>)
    ensures result.Ok? <==> value.Some? && (allowEmpty || value.value != []) && Accepted(value.value, order)
    ensures result.Ok? ==> result.value == Identities(value.value, order)
  {
    if value.None? { return Err("must be an array"); }
    var entries := value.value;
    if !allowEmpty && |entries| == 0 { return Err("must be a non-empty array"); }
    var seen: set<string> := {};
    var previousIndex: int := -1;
    var parsed: seq<Identity> := [];
    for i := 0 to |entries|
      invariant Accepted(entries[..i], order) && parsed == Identities(entries[..i], order)
      invariant previousIndex == LastIndex(parsed, order)
      invariant forall name :: name in seen <==> exists p | p in parsed :: p.name == name
    {
      NextEntry(entries[..i], entries[i], order);
      assert entries[..i + 1] == entries[..i] + [entries[i]];
      ParsedEntry(entries[i], order);
      if !Accepted(entries[..i + 1], order) && Accepted(entries, order) { AcceptedPrefix(entries, order, i + 1); }
      var entry := ParseEntry(entries[i], order);
      if entry.Err? { return Err(entry.reason); }
      var index := IndexOf(order, entry.value.name);
      if index <= previousIndex { return Err("must preserve dependency order"); }
      NameIsNew(parsed, order, entry.value.name);
      assert entry.value.name !in seen;
      seen := seen + {entry.value.name};
      previousIndex := index;
      parsed := parsed + [entry.value];
    }
    assert entries[..|entries|] == entries;
    result := Ok(parsed);
  }

  lemma {:induction false} SplitCovers(s: string, separator: char, c: char)
    requires c in s && c != separator
    ensures exists i | 0 <= i < |Split(s, separator)| :: c in Split(s, separator)[i]
  {
    var parts := Split(s, separator);
    if s[0] == c {
      assert c in parts[0];
    } else {
      assert s == [s[0]] + s[1..];
      SplitCovers(s[1..], separator, c);
      var rest := Split(s[1..], separator);
      var i :| 0 <= i < |rest| && c in rest[i];
      if s[0] == separator {
        assert parts[i + 1] == rest[i];
      } else if i == 0 {
        assert c in parts[0];
      } else {
        assert parts[i] == rest[i];
      }
    }
  }

  lemma StableIsPlain(version: string)
    requires StableVersion(version)
    ensures '@' !in version
  {
    if '@' in version {
      SplitCovers(version, '.', '@');
    }
  }

  /** An accepted list has a tag of its own for every package. */
  lemma AcceptedTagsAreDistinct(entries: seq<Raw>, order: seq<string>)
    requires Accepted(entries, order)
    ensures DistinctTags(Identities(entries, order)) && forall p | p in Identities(entries, order) :: PlainVersion(p)
  {
    var packages := Identities(entries, order);
    forall p | p in packages
      ensures PlainVersion(p)
    {
      var i :| 0 <= i < |packages| && packages[i] == p;
      StableIsPlain(p.version);
    }
    forall i, j | 0 <= i < j < |packages|
      ensures Tag(packages[i]) != Tag(packages[j])
    {
      if Tag(packages[i]) == Tag(packages[j]) {
        assert packages[i] in packages && packages[j] in packages;
        TagIdentifies(packages[i], packages[j]);
      }
    }
  }
}
