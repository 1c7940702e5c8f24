/** Laws that say which file a source path means: together they rewrite every path to a plain absolute one. */
module LcovPathLaws {
  import opened Sequences
  import opened Strings
  import opened Wrappers
  import opened LcovPaths

  lemma {:induction false} SplitAppend(a: string, b: string)
    ensures Split(a + ("/" + b), '/') == Split(a, '/') + Split(b, '/')
  {
    var s := a + ("/" + b);
    if a == "" {
      assert s == "/" + b && s[1..] == b;
    } else {
      assert s[1..] == a[1..] + ("/" + b);
      SplitAppend(a[1..], b);
      var parts := Split(a[1..], '/');
      if a[0] == '/' {
        Assoc([""], parts, Split(b, '/'));
      } else {
        Tail([a[0]] + parts[0], parts[1..]);
        assert (parts + Split(b, '/'))[1..] == parts[1..] + Split(b, '/');
        Assoc([[a[0]] + parts[0]], parts[1..], Split(b, '/'));
      }
    }
  }

  lemma {:induction false} ResolveAppend(base: seq<string>, a: seq<string>, b: seq<string>)
    ensures Resolve(base, a + b) == Resolve(Resolve(base, a), b)
    decreases a
  {
    if a == [] {
      assert a + b == b;
    } else {
      assert (a + b)[0] == a[0] && (a + b)[1..] == a[1..] + b;
      var next := if a[0] == "" || a[0] == "." then base
                  else if a[0] == ".." then (if base == [] then [] else base[..|base| - 1])
                  else base + [a[0]];
      ResolveAppend(next, a[1..], b);
    }
  }

  /** Where a path leads from a directory. */
  function Target(path: string, root: seq<string>): seq<string>
    requires path != ""
  {
    Resolve(if path[0] == '/' then [] else root, Split(path, '/'))
  }

  /** Only the place that a path leads to decides. */
  lemma SameTarget(p: string, q: string, root: seq<string>)
    requires '\\' !in p && '\\' !in q && !Blank(p) && !Blank(q) && Target(p, root) == Target(q, root)
    ensures NormalizeSourcePath(p, root) == NormalizeSourcePath(q, root)
  {
  }

  lemma NotBlank(p: string, i: nat)
    requires i < |p| && p[i] == '/'
    ensures !Blank(p)
  {
    assert p[i] in p;
  }

  /** Backslashes count as slashes. */
  lemma BackslashIsSlash(p: string, root: seq<string>)
    ensures NormalizeSourcePath(Slashes(p), root) == NormalizeSourcePath(p, root)
  {
    SlashesBlank(p);
  }

  lemma {:induction false} SlashesBlank(p: string)
    ensures Blank(Slashes(p)) <==> Blank(p)
  {
    if p != "" {
      SlashesBlank(p[1..]);
      assert p == [p[0]] + p[1..] && Slashes(p) == [Slashes(p)[0]] + Slashes(p[1..]);
      BlankFirst(p[0], p[1..]);
      BlankFirst(Slashes(p)[0], Slashes(p[1..]));
    }
  }

  lemma BlankFirst(c: char, s: string)
    ensures Blank([c] + s) <==> c in SPACES && Blank(s)
  {
    assert forall x :: x in [c] + s <==> x == c || x in s;
  }

  lemma TargetOfTwo(a: string, b: string, root: seq<string>)
    requires a != ""
    ensures Target(a + ("/" + b), root) == Resolve(Target(a, root), Split(b, '/'))
  {
    SplitAppend(a, b);
    ResolveAppend(if a[0] == '/' then [] else root, Split(a, '/'), Split(b, '/'));
  }

  lemma ResolveOne(base: seq<string>, part: string)
    ensures Resolve(base, [part]) ==
            if part == "" || part == "." then base
            else if part == ".." then (if base == [] then [] else base[..|base| - 1])
            else base + [part]
  {
    assert [part][1..] == [];
  }

  lemma PartThenRest(base: seq<string>, part: string, b: string)
    requires '/' !in part
    ensures Resolve(base, Split(part + ("/" + b), '/')) == Resolve(Resolve(base, [part]), Split(b, '/'))
  {
    SplitAppend(part, b);
    SplitLast(part, '/');
    ResolveAppend(base, [part], Split(b, '/'));
  }

  /** An empty part or a dot leads nowhere. */
  lemma DotStays(a: string, dot: string, b: string, root: seq<string>)
    requires a != "" && '\\' !in a && '\\' !in b && (dot == "" || dot == ".")
    ensures NormalizeSourcePath(a + ("/" + (dot + ("/" + b))), root) == NormalizeSourcePath(a + ("/" + b), root)
  {
    var p, q := a + ("/" + (dot + ("/" + b))), a + ("/" + b);
    NotBlank(p, |a|);
    NotBlank(q, |a|);
    TargetOfTwo(a, dot + ("/" + b), root);
    TargetOfTwo(a, b, root);
    PartThenRest(Target(a, root), dot, b);
    ResolveOne(Target(a, root), dot);
    SameTarget(p, q, root);
  }

  lemma BackIsStay(base: seq<string>, name: string, b: string)
    requires Segment(name)
    ensures Resolve(base, Split(name + ("/" + (".." + ("/" + b))), '/')) == Resolve(base, Split(b, '/'))
  {
    PartThenRest(base, name, ".." + ("/" + b));
    ResolveOne(base, name);
    PartThenRest(base + [name], "..", b);
    ResolveOne(base + [name], "..");
    assert (base + [name])[..|base|] == base;
  }

  /** Going into a directory and back leads nowhere. */
  lemma IntoAndBack(a: string, name: string, b: string, root: seq<string>)
    requires a != "" && '\\' !in a && '\\' !in b && Segment(name)
    ensures NormalizeSourcePath(a + ("/" + (name + ("/" + (".." + ("/" + b))))), root) == NormalizeSourcePath(a + ("/" + b), root)
  {
    var inner := name + ("/" + (".." + ("/" + b)));
    NotBlank(a + ("/" + inner), |a|);
    NotBlank(a + ("/" + b), |a|);
    TargetOfTwo(a, inner, root);
    TargetOfTwo(a, b, root);
    BackIsStay(Target(a, root), name, b);
    SameTarget(a + ("/" + inner), a + ("/" + b), root);
  }

  /** An absolute path leads from the top. */
  lemma FromTheTop(b: string, root: seq<string>)
    ensures Target("/" + b, root) == Resolve([], Split(b, '/')) && !Blank("/" + b)
  {
    NotBlank("/" + b, 0);
    assert "/" + b == "" + ("/" + b);
    SplitAppend("", b);
    ResolveAppend([], [""], Split(b, '/'));
    ResolveOne([], "");
  }

  /** There is nothing above the top. */
  lemma AboveTheTop(b: string, root: seq<string>)
    requires '\\' !in b
    ensures NormalizeSourcePath("/" + (".." + ("/" + b)), root) == NormalizeSourcePath("/" + b, root)
  {
    FromTheTop(".." + ("/" + b), root);
    FromTheTop(b, root);
    PartThenRest([], "..", b);
    ResolveOne([], "..");
    SameTarget("/" + (".." + ("/" + b)), "/" + b, root);
  }

  /** A relative path is meant from the root. */
  lemma RelativeIsFromRoot(p: string, root: seq<string>)
    requires root != [] && Segments(root) && '\\' !in p && !Blank(p) && p[0] != '/'
    ensures NormalizeSourcePath("/" + (Join(root, '/') + ("/" + p)), root) == NormalizeSourcePath(p, root)
  {
    JoinedSegments(root);
    FromTheTop(Join(root, '/') + ("/" + p), root);
    SplitAppend(Join(root, '/'), p);
    ResolveAppend([], root, Split(p, '/'));
    ResolvePlain([], root);
    assert [] + root == root;
    SameTarget("/" + (Join(root, '/') + ("/" + p)), p, root);
  }

  lemma BelowRoot(parts: seq<string>, root: seq<string>, result: string)
    ensures |root| < |parts| && parts[..|root|] == root && result == Join(parts[|root|..], '/') <==>
            exists inner :: inner != [] && parts == root + inner && result == Join(inner, '/')
  {
    if |root| < |parts| && parts[..|root|] == root { Halves(parts, |root|); }
    if inner :| inner != [] && parts == root + inner && result == Join(inner, '/') {
      assert parts[..|root|] == root && parts[|root|..] == inner;
    }
  }

  /** A plain absolute path is accepted exactly when it lies below the root, and is what is left of it there. */
  lemma PlainAbsolute(parts: seq<string>, root: seq<string>, result: string)
    requires parts != [] && Segments(parts)
    ensures NormalizeSourcePath("/" + Join(parts, '/'), root) == Ok(result) <==>
            exists inner :: inner != [] && parts == root + inner && result == Join(inner, '/')
  {
    var p := "/" + Join(parts, '/');
    JoinedSegments(parts);
    FromTheTop(Join(parts, '/'), root);
    ResolvePlain([], parts);
    assert [] + parts == parts;
    BelowRoot(parts, root, result);
    assert NormalizeSourcePath(p, root) == Ok(result) <==>
           |root| < |parts| && parts[..|root|] == root && result == Join(parts[|root|..], '/');
  }
}
