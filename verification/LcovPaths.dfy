/** Source paths of coverage reports, made relative to the repository root. */
module LcovPaths {
  import opened Sequences
  import opened Strings
  import opened Wrappers

  const SPACES: set<char> :=
    {'\t', '\n', '\r', ' ', '\U{000B}', '\U{000C}', '\U{00A0}', '\U{1680}', '\U{2000}', '\U{2001}', '\U{2002}',
     '\U{2003}', '\U{2004}', '\U{2005}', '\U{2006}', '\U{2007}', '\U{2008}', '\U{2009}', '\U{200A}', '\U{2028}',
     '\U{2029}', '\U{202F}', '\U{205F}', '\U{3000}', '\U{FEFF}'}

  /** Nothing is left of the text after trimming. */
  predicate Blank(s: string)
  {
    forall c | c in s :: c in SPACES
  }

  function Slashes(s: string): (t: string)
    ensures |t| == |s| && '\\' !in t
    ensures '\\' !in s ==> t == s
  {
    if s == "" then "" else [if s[0] == '\\' then '/' else s[0]] + Slashes(s[1..])
  }

  /** A path segment that names something below its directory. */
  predicate Segment(s: string)
  {
    s != "" && s != "." && s != ".." && '/' !in s && '\\' !in s
  }

  ghost predicate Segments(parts: seq<string>)
  {
    forall i | 0 <= i < |parts| :: Segment(parts[i])
  }

  /** Walking the parts of a path from a directory. */
  function Resolve(base: seq<string>, parts: seq<string>): seq<string>
    decreases parts
  {
    if parts == [] then base
    else if parts[0] == "" || parts[0] == "." then Resolve(base, parts[1..])
    else if parts[0] == ".." then Resolve(if base == [] then [] else base[..|base| - 1], parts[1..])
    else Resolve(base + [parts[0]], parts[1..])
  }

  /**
   The path relative to the root, which is given by its segments. It must lie strictly below the root: a path
   outside it would start with "..".
   */
  function NormalizeSourcePath(path: string, root: seq<string>): Result<string>
  {
    if Blank(path) then Err("coverage source path is empty")
    else
      var input := Slashes(path);
      var absolute := Resolve(if input[0] == '/' then [] else root, Split(input, '/'));
      if |root| < |absolute| && absolute[..|root|] == root then Ok(Join(absolute[|root|..], '/'))
      else Err("coverage source escapes repository root")
  }

  lemma {:induction false} SplitParts(s: string)
    requires '\\' !in s
    ensures forall i | 0 <= i < |Split(s, '/')| :: '/' !in Split(s, '/')[i] && '\\' !in Split(s, '/')[i]
  {
    if s != "" { SplitParts(s[1..]); }
  }

  lemma {:induction false} ResolveSegments(base: seq<string>, parts: seq<string>)
    requires Segments(base)
    requires forall i | 0 <= i < |parts| :: '/' !in parts[i] && '\\' !in parts[i]
    ensures Segments(Resolve(base, parts))
    decreases parts
  {
    if parts != [] {
      if parts[0] == "" || parts[0] == "." { ResolveSegments(base, parts[1..]); }
      else if parts[0] == ".." { ResolveSegments(if base == [] then [] else base[..|base| - 1], parts[1..]); }
      else { ResolveSegments(base + [parts[0]], parts[1..]); }
    }
  }

  /** Plain segments are only appended. */
  lemma {:induction false} ResolvePlain(base: seq<string>, parts: seq<string>)
    requires Segments(parts)
    ensures Resolve(base, parts) == base + parts
    decreases parts
  {
    if parts == [] {
      assert base + parts == base;
    } else {
      assert Segment(parts[0]);
      ResolvePlain(base + [parts[0]], parts[1..]);
      Assoc(base, [parts[0]], parts[1..]);
      assert [parts[0]] + parts[1..] == parts;
    }
  }

  lemma JoinedSegments(parts: seq<string>)
    requires parts != [] && Segments(parts)
    ensures Split(Join(parts, '/'), '/') == parts
    ensures Join(parts, '/') != "" && Join(parts, '/')[0] != '/' && '\\' !in Join(parts, '/')
  {
    assert forall i | 0 <= i < |parts| :: Segment(parts[i]);
    SplitJoined(parts, '/');
    JoinedPlain(parts);
  }

  lemma {:induction false} JoinedPlain(parts: seq<string>)
    requires parts != [] && Segments(parts)
    ensures Join(parts, '/') != "" && Join(parts, '/')[0] != '/' && '\\' !in Join(parts, '/')
  {
    assert Segment(parts[0]);
    if |parts| > 1 {
      JoinedPlain(parts[1..]);
      var text := parts[0] + "/" + Join(parts[1..], '/');
      assert text[0] == parts[0][0];
      forall c | c in text ensures c != '\\' { }
    }
  }

  /** A path that has been normalized once is not changed again, unless it is blank and then refused. */
  lemma NormalizeIdempotent(path: string, root: seq<string>)
    requires Segments(root) && NormalizeSourcePath(path, root).Ok?
    ensures var p := NormalizeSourcePath(path, root).value;
            NormalizeSourcePath(p, root) == if Blank(p) then Err("coverage source path is empty") else Ok(p)
  {
    var input := Slashes(path);
    var parts := Split(input, '/');
    var base := if input[0] == '/' then [] else root;
    SplitParts(input);
    ResolveSegments(base, parts);
    var absolute := Resolve(base, parts);
    var inner := absolute[|root|..];
    assert Segments(inner);
    JoinedSegments(inner);
    ResolvePlain(root, inner);
    assert (root + inner)[..|root|] == root && (root + inner)[|root|..] == inner;
  }

  /** Length of the parts with one separator after each. */
  function Weight(parts: seq<string>): nat
  {
    if parts == [] then 0 else Weight(parts[..|parts| - 1]) + |parts[|parts| - 1]| + 1
  }

  lemma {:induction false} WeightAppend(a: seq<string>, b: seq<string>)
    ensures Weight(a + b) == Weight(a) + Weight(b)
  {
    if b == [] {
      assert a + b == a;
    } else {
      WeightAppend(a, b[..|b| - 1]);
      assert (a + b)[..|a + b| - 1] == a + b[..|b| - 1];
    }
  }

  lemma {:induction false} WeightOfSplit(s: string, separator: char)
    ensures Weight(Split(s, separator)) == |s| + 1
  {
    if s == "" {
      assert [""][..0] == [];
    } else {
      var rest := Split(s[1..], separator);
      WeightOfSplit(s[1..], separator);
      if s[0] == separator {
        WeightAppend([""], rest);
        assert [""][..0] == [];
      } else {
        WeightAppend([[s[0]] + rest[0]], rest[1..]);
        WeightAppend([rest[0]], rest[1..]);
        assert [rest[0]] + rest[1..] == rest;
        assert [rest[0]][..0] == [] && [[s[0]] + rest[0]][..0] == [];
      }
    }
  }

  /** Resolving never makes a path longer. */
  lemma {:induction false} ResolveWeight(base: seq<string>, parts: seq<string>)
    ensures Weight(Resolve(base, parts)) <= Weight(base) + Weight(parts)
    decreases parts
  {
    if parts != [] {
      WeightAppend([parts[0]], parts[1..]);
      assert [parts[0]] + parts[1..] == parts && [parts[0]][..0] == [];
      var next := if parts[0] == "" || parts[0] == "." then base
                  else if parts[0] == ".." then (if base == [] then [] else base[..|base| - 1])
                  else base + [parts[0]];
      WeightAppend(base, [parts[0]]);
      ResolveWeight(next, parts[1..]);
    }
  }

  lemma NormalizedNotLonger(path: string, root: seq<string>)
    requires Segments(root) && NormalizeSourcePath(path, root).Ok? && Slashes(path)[0] != '/'
    ensures |NormalizeSourcePath(path, root).value| <= |path|
  {
    var input := Slashes(path);
    var parts := Split(input, '/');
    SplitParts(input);
    ResolveSegments(root, parts);
    ResolveWeight(root, parts);
    WeightOfSplit(input, '/');
    var absolute := Resolve(root, parts);
    var inner := absolute[|root|..];
    Halves(absolute, |root|);
    WeightAppend(root, inner);
    JoinedSegments(inner);
    WeightOfSplit(Join(inner, '/'), '/');
  }

  /** A normalized path does not start with a slash and has no backslash. */
  lemma NormalizedIsRelative(path: string, root: seq<string>)
    requires Segments(root) && NormalizeSourcePath(path, root).Ok?
    ensures var p := NormalizeSourcePath(path, root).value; p != "" && p[0] != '/' && '\\' !in p
  {
    var input := Slashes(path);
    SplitParts(input);
    ResolveSegments(if input[0] == '/' then [] else root, Split(input, '/'));
    JoinedSegments(Resolve(if input[0] == '/' then [] else root, Split(input, '/'))[|root|..]);
  }

  lemma {:induction false} SlashesKeep(s: string, c: char)
    requires c !in s && c != '/'
    ensures c !in Slashes(s)
  {
    if s != "" { SlashesKeep(s[1..], c); }
  }

  lemma {:induction false} SplitKeeps(s: string, separator: char, c: char)
    requires c !in s
    ensures forall i | 0 <= i < |Split(s, separator)| :: c !in Split(s, separator)[i]
  {
    if s != "" { SplitKeeps(s[1..], separator, c); }
  }

  /** Parts beyond the n-th come from the resolved path, not from the directory it is resolved in. */
  lemma {:induction false} ResolveKeeps(base: seq<string>, parts: seq<string>, n: nat, c: char)
    requires forall i | n <= i < |base| :: c !in base[i]
    requires forall i | 0 <= i < |parts| :: c !in parts[i]
    ensures forall i | n <= i < |Resolve(base, parts)| :: c !in Resolve(base, parts)[i]
    decreases parts
  {
    if parts != [] {
      var next := if parts[0] == "" || parts[0] == "." then base
                  else if parts[0] == ".." then (if base == [] then [] else base[..|base| - 1])
                  else base + [parts[0]];
      ResolveKeeps(next, parts[1..], n, c);
    }
  }

  lemma {:induction false} JoinKeeps(parts: seq<string>, separator: char, c: char)
    requires c != separator && forall i | 0 <= i < |parts| :: c !in parts[i]
    ensures c !in Join(parts, separator)
  {
    if |parts| > 1 { JoinKeeps(parts[1..], separator, c); }
  }

  /** Normalizing brings no new character but slashes. */
  lemma NormalizedKeeps(path: string, root: seq<string>, c: char)
    requires NormalizeSourcePath(path, root).Ok? && c !in path && c != '/'
    ensures c !in NormalizeSourcePath(path, root).value
  {
    var input := Slashes(path);
    var base := if input[0] == '/' then [] else root;
    SlashesKeep(path, c);
    SplitKeeps(input, '/', c);
    ResolveKeeps(base, Split(input, '/'), |root|, c);
    JoinKeeps(Resolve(base, Split(input, '/'))[|root|..], '/', c);
  }
}
