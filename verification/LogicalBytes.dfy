/** The walk that sums the sizes of the files below a root, each file once, whatever symbolic links lead to it. */
module LogicalBytes {
  import opened Wrappers
  import opened Sets

  /** The place of an entry, with every symbolic link in its parent directories resolved. */
  type Node = nat

  /** A link names the entry its text leads to, which may be a link again; none when there is nothing there. */
  datatype Entry =
    | Directory(children: seq<Node>)
    | File(size: nat)
    | Link(target: Option<Node>)
    | Other

  predicate Closed(fs: map<Node, Entry>)
  {
    forall n | n in fs ::
      && (fs[n].Directory? ==> forall c | c in fs[n].children :: c in fs)
      && (fs[n].Link? && fs[n].target.Some? ==> fs[n].target.value in fs)
  }

  /** Every entry that a directory lists or a link names is there. */
  type FileSystem = fs: map<Node, Entry> | Closed(fs) witness map[]

  /** Following links to the end, or none when they dangle or loop. */
  function RealFrom(fs: FileSystem, n: Node, seen: set<Node>): (r: Option<Node>)
    requires n in fs && seen <= fs.Keys
    ensures r.Some? ==> r.value in fs && !fs[r.value].Link?
    decreases |fs.Keys - seen|
  {
    if !fs[n].Link? then Some(n)
    else if n in seen || fs[n].target.None? then None
    else
      SeenGrows(fs, n, seen);
      RealFrom(fs, fs[n].target.value, seen + {n})
  }

  lemma SeenGrows(fs: FileSystem, n: Node, seen: set<Node>)
    requires n in fs && n !in seen
    ensures |fs.Keys - (seen + {n})| < |fs.Keys - seen|
  {
    assert fs.Keys - (seen + {n}) == (fs.Keys - seen) - {n};
  }

  function RealPath(fs: FileSystem, n: Node): (r: Option<Node>)
    requires n in fs
    ensures r.Some? ==> r.value in fs && !fs[r.value].Link?
  {
    RealFrom(fs, n, {})
  }

  // ----- Links resolve as a chain does

  /** A chain of links, each naming the next. */
  ghost predicate Chain(fs: FileSystem, chain: seq<Node>)
  {
    && chain != [] && (forall n | n in chain :: n in fs)
    && forall i | 0 <= i < |chain| - 1 :: fs[chain[i]].Link? && fs[chain[i]].target == Some(chain[i + 1])
  }

  lemma {:induction false} RealIsChainEnd(fs: FileSystem, chain: seq<Node>, seen: set<Node>)
    requires Chain(fs, chain) && seen <= fs.Keys && !fs[chain[|chain| - 1]].Link?
    requires forall n | n in seen :: n !in chain
    ensures RealFrom(fs, chain[0], seen) == Some(chain[|chain| - 1])
    decreases |chain|
  {
    if |chain| > 1 {
      var rest := chain[1..];
      if chain[0] in rest {
        var k :| 1 <= k < |chain| && chain[k] == chain[0];
        ChainUnique(fs, chain, chain[k..]);
        assert false;
      }
      RealIsChainEnd(fs, rest, seen + {chain[0]});
    }
  }

  lemma {:induction false} ChainUnique(fs: FileSystem, a: seq<Node>, b: seq<Node>)
    requires Chain(fs, a) && Chain(fs, b) && a[0] == b[0]
    requires !fs[a[|a| - 1]].Link? && !fs[b[|b| - 1]].Link?
    ensures a == b
    decreases |a|
  {
    if |a| > 1 && |b| > 1 {
      ChainUnique(fs, a[1..], b[1..]);
    }
  }

  lemma {:induction false} ChainOf(fs: FileSystem, n: Node, seen: set<Node>) returns (chain: seq<Node>)
    requires n in fs && seen <= fs.Keys && RealFrom(fs, n, seen).Some?
    ensures Chain(fs, chain) && chain[0] == n && Some(chain[|chain| - 1]) == RealFrom(fs, n, seen)
    decreases |fs.Keys - seen|
  {
    if !fs[n].Link? {
      chain := [n];
    } else {
      SeenGrows(fs, n, seen);
      var rest := ChainOf(fs, fs[n].target.value, seen + {n});
      chain := [n] + rest;
    }
  }

  /** A path resolves exactly when a chain of links leads from it to something that is not a link. */
  lemma RealPathIs(fs: FileSystem, n: Node, r: Node)
    requires n in fs
    ensures RealPath(fs, n) == Some(r) <==>
            exists chain :: Chain(fs, chain) && chain[0] == n && chain[|chain| - 1] == r && !fs[r].Link?
  {
    if RealPath(fs, n) == Some(r) {
      var chain := ChainOf(fs, n, {});
    }
    if exists chain :: Chain(fs, chain) && chain[0] == n && chain[|chain| - 1] == r && !fs[r].Link? {
      var chain :| Chain(fs, chain) && chain[0] == n && chain[|chain| - 1] == r && !fs[r].Link?;
      RealIsChainEnd(fs, chain, {});
    }
  }

  // ----- What the root reaches

  /** Where the walk goes from an entry: into a directory's entries, or to the end of a link. */
  ghost predicate Edge(fs: FileSystem, a: Node, b: Node)
  {
    a in fs && ((fs[a].Directory? && b in fs[a].children) || (fs[a].Link? && RealPath(fs, a) == Some(b)))
  }

  ghost predicate Path(fs: FileSystem, path: seq<Node>)
  {
    path != [] && forall i | 0 <= i < |path| - 1 :: Edge(fs, path[i], path[i + 1])
  }

  ghost predicate Reaches(fs: FileSystem, a: Node, b: Node)
  {
    exists path :: Path(fs, path) && path[0] == a && path[|path| - 1] == b
  }

  lemma ReachesSelf(fs: FileSystem, a: Node)
    ensures Reaches(fs, a, a)
  {
    assert Path(fs, [a]);
  }

  lemma ReachesNext(fs: FileSystem, a: Node, b: Node, c: Node)
    requires Reaches(fs, a, b) && Edge(fs, b, c)
    ensures Reaches(fs, a, c)
  {
    var path :| Path(fs, path) && path[0] == a && path[|path| - 1] == b;
    assert Path(fs, path + [c]);
  }

  /** A link that the walk cannot follow. */
  ghost predicate Broken(fs: FileSystem, n: Node)
  {
    n in fs && fs[n].Link? && RealPath(fs, n).None?
  }

  ghost predicate HasBroken(fs: FileSystem, root: Node)
  {
    exists n :: Reaches(fs, root, n) && Broken(fs, n)
  }

  ghost function ReachableFiles(fs: FileSystem, root: Node): set<Node>
  {
    set n | n in fs && fs[n].File? && Reaches(fs, root, n)
  }

  ghost predicate AllFiles(fs: FileSystem, s: set<Node>)
  {
    forall n | n in s :: n in fs && fs[n].File?
  }

  ghost function TotalSize(fs: FileSystem, s: set<Node>): nat
    requires AllFiles(fs, s)
    decreases s
  {
    if s == {} then 0
    else
      var n :| n in s;
      fs[n].size + TotalSize(fs, s - {n})
  }

  /** A total does not depend on the order of its parts. */
  lemma {:induction false} TotalWith(fs: FileSystem, s: set<Node>, n: Node)
    requires AllFiles(fs, s + {n}) && n !in s
    ensures TotalSize(fs, s + {n}) == fs[n].size + TotalSize(fs, s)
    decreases s
  {
    var all := s + {n};
    var m :| m in all && TotalSize(fs, all) == fs[m].size + TotalSize(fs, all - {m});
    if m == n {
      assert all - {m} == s;
    } else {
      assert all - {m} == (s - {m}) + {n};
      TotalWith(fs, s - {m}, n);
      TotalWith(fs, s - {m}, m);
      assert (s - {m}) + {m} == s;
    }
  }

  // ----- The walk

  /** The walk is done with an entry. */
  ghost predicate Covered(fs: FileSystem, directories: set<Node>, files: set<Node>, n: Node)
  {
    && n in fs
    && (fs[n].Directory? ==> n in directories)
    && (fs[n].File? ==> n in files)
    && (fs[n].Link? ==> RealPath(fs, n).Some? && CoveredEnd(fs, directories, files, RealPath(fs, n).value))
  }

  ghost predicate CoveredEnd(fs: FileSystem, directories: set<Node>, files: set<Node>, n: Node)
    requires n in fs
  {
    (fs[n].Directory? ==> n in directories) && (fs[n].File? ==> n in files)
  }

  /** A directory is finished when the walk is done with all its entries. */
  ghost predicate Finished(fs: FileSystem, directories: set<Node>, files: set<Node>, d: Node)
  {
    d in fs && fs[d].Directory? && forall c | c in fs[d].children :: Covered(fs, directories, files, c)
  }

  lemma CoveredGrows(fs: FileSystem, d0: set<Node>, f0: set<Node>, d1: set<Node>, f1: set<Node>, n: Node)
    requires d0 <= d1 && f0 <= f1 && Covered(fs, d0, f0, n)
    ensures Covered(fs, d1, f1, n)
  {
  }

  class Walk {
    const fs: FileSystem
    ghost const root: Node
    var directories: set<Node>
    var files: set<Node>
    var bytes: nat
    var count: nat

    ghost predicate Valid()
      reads this
    {
      && AllFiles(fs, files)
      && (forall d | d in directories :: d in fs && fs[d].Directory? && Reaches(fs, root, d))
      && (forall f | f in files :: Reaches(fs, root, f))
      && bytes == TotalSize(fs, files) && count == |files|
    }

    /** Every directory that the walk has entered and left again is finished. */
    ghost predicate Left(open: set<Node>)
      reads this
      {
      forall d | d in directories && d !in open :: Finished(fs, directories, files, d)
    }

    constructor (fs: FileSystem, root: Node)
      requires root in fs
      ensures Valid() && this.fs == fs && this.root == root && directories == {} && files == {}
    {
      this.fs, this.root, directories, files, bytes, count := fs, root, {}, {}, 0, 0;
    }

    /** A link that cannot be followed ends the walk. */
    method Visit(n: Node, ghost open: set<Node>) returns (ok: bool)
      requires Valid() && Left(open) && n in fs && Reaches(fs, root, n)
      modifies this
      ensures Valid() && old(directories) <= directories && old(files) <= files
      ensures ok ==> Left(open) && Covered(fs, directories, files, n)
      ensures !ok ==> HasBroken(fs, root)
      decreases |fs.Keys - directories|, if fs[n].Link? then 2 else 1
    {
      if fs[n].Link? {
        var target := RealPath(fs, n);
        if target.None? { return false; }
        ReachesNext(fs, root, n, target.value);
        ok := Visit(target.value, open);
      } else if fs[n].Directory? {
        if n in directories { return true; }
        ok := VisitDirectory(n, open);
      } else if fs[n].File? {
        if n in files { return true; }
        AddFile(n);
        return true;
      } else {
        return true;
      }
    }

    method AddFile(n: Node)
      requires Valid() && n in fs && fs[n].File? && n !in files && Reaches(fs, root, n)
      modifies this`files, this`bytes, this`count
      ensures Valid() && files == old(files) + {n}
    {
      TotalWith(fs, files, n);
      files := files + {n};
      bytes := bytes + fs[n].size;
      count := count + 1;
    }

    method VisitDirectory(n: Node, ghost open: set<Node>) returns (ok: bool)
      requires Valid() && Left(open) && n in fs && fs[n].Directory? && n !in directories && Reaches(fs, root, n)
      modifies this
      ensures Valid() && old(directories) <= directories && old(files) <= files
      ensures ok ==> Left(open) && n in directories
      ensures !ok ==> HasBroken(fs, root)
      decreases |fs.Keys - directories|, 0
    {
      ghost var before := directories;
      directories := directories + {n};
      ok := true;
      var i := 0;
      while ok && i < |fs[n].children|
        invariant Valid() && i <= |fs[n].children| && before + {n} <= directories && old(files) <= files
        invariant ok ==> Left(open + {n}) && FirstCovered(fs, directories, files, fs[n].children, i)
        invariant !ok ==> HasBroken(fs, root)
        decreases |fs[n].children| - i
      {
        var entry := fs[n].children[i];
        assert Edge(fs, n, entry);
        ReachesNext(fs, root, n, entry);
        Fewer(fs, before, directories, n);
        ghost var d, f := directories, files;
        ok := Visit(entry, open + {n});
        if ok { NextCovered(fs, d, f, directories, files, fs[n].children, i); }
        i := i + 1;
      }
    }
  }

  /** The first entries of a directory are done with. */
  ghost predicate FirstCovered(fs: FileSystem, directories: set<Node>, files: set<Node>, entries: seq<Node>, k: nat)
    requires k <= |entries|
  {
    forall i | 0 <= i < k :: Covered(fs, directories, files, entries[i])
  }

  lemma NextCovered(fs: FileSystem, d0: set<Node>, f0: set<Node>, d1: set<Node>, f1: set<Node>, entries: seq<Node>, k: nat)
    requires k < |entries| && d0 <= d1 && f0 <= f1
    requires FirstCovered(fs, d0, f0, entries, k) && Covered(fs, d1, f1, entries[k])
    ensures FirstCovered(fs, d1, f1, entries, k + 1)
  {
    forall i | 0 <= i < k ensures Covered(fs, d1, f1, entries[i]) { CoveredGrows(fs, d0, f0, d1, f1, entries[i]); }
  }

  lemma Fewer(fs: FileSystem, before: set<Node>, now: set<Node>, n: Node)
    requires n in fs && n !in before && before + {n} <= now
    ensures |fs.Keys - now| < |fs.Keys - before|
  {
    SubsetSize(fs.Keys - now, (fs.Keys - before) - {n});
  }

  /** A set of entries closed under the walk's edges holds all that its members reach. */
  lemma {:induction false} StaysInside(fs: FileSystem, inside: set<Node>, path: seq<Node>, k: nat)
    requires Path(fs, path) && path[0] in inside && k < |path|
    requires forall a, b | a in inside && Edge(fs, a, b) :: b in inside
    ensures path[k] in inside
  {
    if k > 0 {
      StaysInside(fs, inside, path, k - 1);
      assert Edge(fs, path[k - 1], path[k]);
    }
  }

  /** The outcome of a walk: an error when there is no root or a link below it leads nowhere, and else the exact totals. */
  datatype Outcome = Failed | Totals(bytes: nat, files: nat)

  ghost function Expected(fs: FileSystem, root: Node): Outcome
  {
    if root !in fs || HasBroken(fs, root) then Failed
    else Totals(TotalSize(fs, ReachableFiles(fs, root)), |ReachableFiles(fs, root)|)
  }

  lemma DoneCoversAll(fs: FileSystem, root: Node, directories: set<Node>, files: set<Node>, n: Node)
    requires Covered(fs, directories, files, root)
    requires forall d | d in directories :: Finished(fs, directories, files, d)
    requires Reaches(fs, root, n)
    ensures Covered(fs, directories, files, n)
  {
    var inside := set x | x in fs && Covered(fs, directories, files, x);
    var path :| Path(fs, path) && path[0] == root && path[|path| - 1] == n;
    forall a, b | a in inside && Edge(fs, a, b)
      ensures b in inside
    {
      if fs[a].Directory? { assert Finished(fs, directories, files, a); }
    }
    StaysInside(fs, inside, path, |path| - 1);
  }

  method WalkLogicalBytes(fs: FileSystem, root: Node) returns (outcome: Outcome)
    ensures outcome == Expected(fs, root)
  {
    if root !in fs { return Failed; }
    var walk := new Walk(fs, root);
    ReachesSelf(fs, root);
    var ok := walk.Visit(root, {});
    if !ok { return Failed; }
    forall n | Reaches(fs, root, n)
      ensures Covered(fs, walk.directories, walk.files, n)
    {
      DoneCoversAll(fs, root, walk.directories, walk.files, n);
    }
    assert walk.files == ReachableFiles(fs, root);
    outcome := Totals(walk.bytes, walk.count);
  }

  // ----- Directory order does not matter

  ghost predicate SameUpToOrder(a: FileSystem, b: FileSystem)
  {
    && a.Keys == b.Keys
    && forall n | n in a ::
         if a[n].Directory? then b[n].Directory? && forall c :: c in a[n].children <==> c in b[n].children
         else b[n] == a[n]
  }

  lemma {:induction false} SameReal(a: FileSystem, b: FileSystem, n: Node, seen: set<Node>)
    requires SameUpToOrder(a, b) && n in a && seen <= a.Keys
    ensures RealFrom(a, n, seen) == RealFrom(b, n, seen)
    decreases |a.Keys - seen|
  {
    if a[n].Link? && n !in seen && a[n].target.Some? {
      SeenGrows(a, n, seen);
      SameReal(a, b, a[n].target.value, seen + {n});
    }
  }

  lemma SameReach(a: FileSystem, b: FileSystem, root: Node, n: Node)
    requires SameUpToOrder(a, b) && Reaches(a, root, n)
    ensures Reaches(b, root, n)
  {
    var path :| Path(a, path) && path[0] == root && path[|path| - 1] == n;
    forall i | 0 <= i < |path| - 1
      ensures Edge(b, path[i], path[i + 1])
    {
      assert Edge(a, path[i], path[i + 1]);
      SameReal(a, b, path[i], {});
    }
    assert Path(b, path);
  }

  lemma {:induction false} SameTotal(a: FileSystem, b: FileSystem, s: set<Node>)
    requires AllFiles(a, s) && AllFiles(b, s) && forall n | n in s :: a[n] == b[n]
    ensures TotalSize(a, s) == TotalSize(b, s)
    decreases s
  {
    if s != {} {
      var n :| n in s;
      SameTotal(a, b, s - {n});
      TotalWith(a, s - {n}, n);
      TotalWith(b, s - {n}, n);
      assert (s - {n}) + {n} == s;
    }
  }

  /** Listing directories in another order, or an entry twice, changes nothing. */
  lemma OrderDoesNotMatter(a: FileSystem, b: FileSystem, root: Node)
    requires SameUpToOrder(a, b)
    ensures Expected(a, root) == Expected(b, root)
  {
    forall n
      ensures Reaches(a, root, n) <==> Reaches(b, root, n)
    {
      if Reaches(a, root, n) { SameReach(a, b, root, n); }
      if Reaches(b, root, n) { SameReach(b, a, root, n); }
    }
    forall n | n in a
      ensures Broken(a, n) <==> Broken(b, n)
    {
      SameReal(a, b, n, {});
    }
    assert HasBroken(a, root) <==> HasBroken(b, root);
    assert ReachableFiles(a, root) == ReachableFiles(b, root);
    SameTotal(a, b, ReachableFiles(a, root));
  }
}
