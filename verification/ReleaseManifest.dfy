/** Packages of a release, and what the manifest and workspace checks establish about their order. */
module ReleaseManifest {
  import opened CodeUnits
  import opened HostObjects
  import opened PackageOrder

  datatype Artifact = Artifact(name: string, version: string, integrity: string, dependencies: seq<Identity>)
  {
    function Id(): Identity { Identity(name, version) }
  }

  datatype Verdict = Accepted | Rejected(reason: string)

  predicate Packaged(artifacts: seq<Artifact>, name: string)
  {
    exists i | 0 <= i < |artifacts| :: artifacts[i].name == name
  }

  /** Names appear once, and a dependency on a packaged name asks for the packaged version. */
  ghost predicate Consistent(artifacts: seq<Artifact>)
  {
    && (forall i, j | 0 <= i < j < |artifacts| :: artifacts[i].name != artifacts[j].name)
    && (forall i, k, d | 0 <= i < |artifacts| && 0 <= k < |artifacts| && d in artifacts[i].dependencies ::
          artifacts[k].name == d.name ==> artifacts[k].version == d.version)
  }

  /** A packaged dependency comes earlier in the list than the package that needs it. */
  ghost predicate Ordered(artifacts: seq<Artifact>)
  {
    forall i, k, d | 0 <= i < |artifacts| && 0 <= k < |artifacts| && d in artifacts[i].dependencies ::
      artifacts[k].name == d.name ==> k < i
  }

  /** The publishing order that the manifest is checked against is a list without duplicates. */
  type Order = names: seq<string> | Distinct(names) witness []

  /** The first n packages are known and each comes after those before it. */
  ghost predicate InOrder(order: Order, artifacts: seq<Artifact>, n: nat)
    requires n <= |artifacts|
  {
    && (forall i | 0 <= i < n :: artifacts[i].name in order)
    && (forall i, j | 0 <= i < j < n :: IndexOf(order, artifacts[i].name) < IndexOf(order, artifacts[j].name))
  }

  ghost predicate AllKnown(order: Order, artifacts: seq<Artifact>)
  {
    forall i, d | 0 <= i < |artifacts| && d in artifacts[i].dependencies :: d.name in order
  }

  /** What a release manifest should be: packages in publishing order, with known and consistent dependencies. */
  ghost predicate ManifestOk(order: Order, artifacts: seq<Artifact>)
  {
    && artifacts != []
    && InOrder(order, artifacts, |artifacts|)
    && AllKnown(order, artifacts)
    && Consistent(artifacts)
  }

  // ----- What the checks decide: places are read from a plain object

  /** What the table of places answers for a name: nothing, a place, or what every object inherits under that name. */
  datatype Place = Unknown | At(index: nat) | Inherited(text: Text)

  /** The text that an inherited value turns into when it is compared. It is the host's, and no numeral. */
  type Host = string -> Text

  function PlaceOf(order: Order, host: Host, name: string): Place
  {
    if IndexOf(order, name) >= 0 then At(IndexOf(order, name))
    else if name in INHERITED then Inherited(host(name))
    else Unknown
  }

  /** The comparison a <= b. Places compare as numbers, texts as texts, and a text with a number as not a number. */
  predicate NotAfter(a: Place, b: Place)
  {
    match (a, b)
    case (At(i), At(j)) => i <= j
    case (Inherited(s), Inherited(t)) => !Less(t, s)
    case _ => false
  }

  ghost predicate Unique(artifacts: seq<Artifact>, n: nat)
    requires n <= |artifacts|
  {
    forall i, j | 0 <= i < j < n :: artifacts[i].name != artifacts[j].name
  }

  /** What the first loop lets through. */
  ghost predicate Admitted(order: Order, host: Host, artifacts: seq<Artifact>, n: nat)
    requires n <= |artifacts|
  {
    && (forall i | 0 <= i < n :: !PlaceOf(order, host, artifacts[i].name).Unknown?)
    && Unique(artifacts, n)
    && (forall i | 0 < i < n ::
          !NotAfter(PlaceOf(order, host, artifacts[i].name), PlaceOf(order, host, artifacts[i - 1].name)))
  }

  ghost function Names(artifacts: seq<Artifact>, n: nat): set<string>
    requires n <= |artifacts|
  {
    set i | 0 <= i < n :: artifacts[i].name
  }

  ghost predicate VersionsOf(versions: map<string, string>, artifacts: seq<Artifact>, n: nat)
    requires n <= |artifacts|
  {
    && versions.Keys == Names(artifacts, n)
    && forall i | 0 <= i < n :: artifacts[i].name in versions && versions[artifacts[i].name] == artifacts[i].version
  }

  predicate Answered(order: Order, name: string)
  {
    name in order || name in INHERITED
  }

  ghost predicate Fits(order: Order, versions: map<string, string>, d: Identity)
  {
    Answered(order, d.name) && (d.name in versions ==> d.version == versions[d.name])
  }

  ghost predicate AllFit(order: Order, versions: map<string, string>, artifacts: seq<Artifact>)
  {
    forall i, d | 0 <= i < |artifacts| && d in artifacts[i].dependencies :: Fits(order, versions, d)
  }

  ghost predicate AllAnswered(order: Order, artifacts: seq<Artifact>)
  {
    forall i, d | 0 <= i < |artifacts| && d in artifacts[i].dependencies :: Answered(order, d.name)
  }

  /** What validateReleaseManifest decides about order and internal dependencies. */
  ghost predicate Passes(order: Order, host: Host, artifacts: seq<Artifact>)
  {
    && artifacts != []
    && Admitted(order, host, artifacts, |artifacts|)
    && AllAnswered(order, artifacts)
    && Consistent(artifacts)
  }

  lemma NextName(artifacts: seq<Artifact>, n: nat)
    requires n < |artifacts|
    ensures Names(artifacts, n + 1) == Names(artifacts, n) + {artifacts[n].name}
  {
  }

  lemma NextUnique(artifacts: seq<Artifact>, n: nat)
    requires n < |artifacts| && Unique(artifacts, n)
    ensures Unique(artifacts, n + 1) <==> artifacts[n].name !in Names(artifacts, n)
  {
    if artifacts[n].name in Names(artifacts, n) {
      var i :| 0 <= i < n && artifacts[i].name == artifacts[n].name;
    } else {
      forall i | 0 <= i < n
        ensures artifacts[i].name != artifacts[n].name
      {
        assert artifacts[i].name in Names(artifacts, n);
      }
    }
  }

  lemma NextAdmitted(order: Order, host: Host, artifacts: seq<Artifact>, n: nat)
    requires n < |artifacts| && Admitted(order, host, artifacts, n)
    ensures Admitted(order, host, artifacts, n + 1) <==>
            && artifacts[n].name !in Names(artifacts, n)
            && !PlaceOf(order, host, artifacts[n].name).Unknown?
            && (n > 0 ==> !NotAfter(PlaceOf(order, host, artifacts[n].name), PlaceOf(order, host, artifacts[n - 1].name)))
  {
    NextUnique(artifacts, n);
  }

  /** A package that is not admitted after those before it spoils the whole list. */
  lemma StaysRejected(order: Order, host: Host, artifacts: seq<Artifact>, n: nat)
    requires n <= |artifacts| && !Admitted(order, host, artifacts, n)
    ensures !Admitted(order, host, artifacts, |artifacts|)
  {
  }

  lemma NextVersion(versions: map<string, string>, artifacts: seq<Artifact>, n: nat)
    requires n < |artifacts| && VersionsOf(versions, artifacts, n) && artifacts[n].name !in Names(artifacts, n)
    ensures VersionsOf(versions[artifacts[n].name := artifacts[n].version], artifacts, n + 1)
  {
    NextName(artifacts, n);
    assert forall i | 0 <= i < n :: artifacts[i].name in Names(artifacts, n);
  }

  /** The first loop: each package is answered for, new, and not before the package before it. */
  method CheckPackageOrder(order: Order, host: Host, artifacts: seq<Artifact>)
    returns (verdict: Verdict, versions: map<string, string>)
    ensures verdict.Accepted? <==> Admitted(order, host, artifacts, |artifacts|)
    ensures verdict.Accepted? ==> VersionsOf(versions, artifacts, |artifacts|)
  {
    versions := map[];
    var seen: set<string> := {};
    var previous := Unknown;
    for n := 0 to |artifacts|
      invariant Admitted(order, host, artifacts, n) && VersionsOf(versions, artifacts, n)
      invariant seen == Names(artifacts, n)
      invariant previous == if n == 0 then Unknown else PlaceOf(order, host, artifacts[n - 1].name)
    {
      var name := artifacts[n].name;
      var place := PlaceOf(order, host, name);
      NextName(artifacts, n);
      NextAdmitted(order, host, artifacts, n);
      if name in seen || place.Unknown? || NotAfter(place, previous) {
        verdict := Rejected(if name in seen then "duplicate release package"
                            else if place.Unknown? then "unknown release package"
                            else "release packages must follow dependency order");
        StaysRejected(order, host, artifacts, n + 1);
        return;
      }
      NextVersion(versions, artifacts, n);
      previous := place;
      seen := seen + {name};
      versions := versions[name := artifacts[n].version];
    }
    verdict := Accepted;
  }

  /** The second loop: each internal dependency is answered for and asks for the packaged version. */
  method CheckDependencies(order: Order, artifacts: seq<Artifact>, versions: map<string, string>)
    returns (verdict: Verdict)
    ensures verdict.Accepted? <==> AllFit(order, versions, artifacts)
  {
    for n := 0 to |artifacts|
      invariant forall i, d | 0 <= i < n && d in artifacts[i].dependencies :: Fits(order, versions, d)
    {
      var dependencies := artifacts[n].dependencies;
      for m := 0 to |dependencies|
        invariant forall k | 0 <= k < m :: Fits(order, versions, dependencies[k])
      {
        var d := dependencies[m];
        assert d in artifacts[n].dependencies;
        if !Answered(order, d.name) {
          assert !Fits(order, versions, d);
          return Rejected("unknown internal dependency");
        }
        if d.name in versions && d.version != versions[d.name] {
          assert !Fits(order, versions, d);
          return Rejected("internal dependency must be the packaged version");
        }
      }
    }
    verdict := Accepted;
  }

  method ValidateReleaseManifest(order: Order, host: Host, artifacts: seq<Artifact>) returns (verdict: Verdict)
    ensures verdict.Accepted? <==> Passes(order, host, artifacts)
  {
    if |artifacts| == 0 {
      return Rejected("release packages must be a non-empty array");
    }
    var versions;
    verdict, versions := CheckPackageOrder(order, host, artifacts);
    if verdict.Rejected? { return; }
    verdict := CheckDependencies(order, artifacts, versions);
    FitsMeansConsistent(order, host, artifacts, versions);
  }

  lemma FitsMeansConsistent(order: Order, host: Host, artifacts: seq<Artifact>, versions: map<string, string>)
    requires Admitted(order, host, artifacts, |artifacts|) && VersionsOf(versions, artifacts, |artifacts|)
    ensures AllFit(order, versions, artifacts) <==> Consistent(artifacts) && AllAnswered(order, artifacts)
  {
    if AllFit(order, versions, artifacts) {
      forall i, k, d | 0 <= i < |artifacts| && 0 <= k < |artifacts| && d in artifacts[i].dependencies && artifacts[k].name == d.name
        ensures artifacts[k].version == d.version
      {
        assert Fits(order, versions, d) && versions[artifacts[k].name] == artifacts[k].version;
      }
      forall i, d | 0 <= i < |artifacts| && d in artifacts[i].dependencies
        ensures Answered(order, d.name)
      {
        assert Fits(order, versions, d);
      }
    }
    if Consistent(artifacts) && AllAnswered(order, artifacts) {
      forall i, d | 0 <= i < |artifacts| && d in artifacts[i].dependencies
        ensures Fits(order, versions, d)
      {
        if d.name in versions {
          assert d.name in Names(artifacts, |artifacts|);
          var k :| 0 <= k < |artifacts| && artifacts[k].name == d.name;
          assert versions[artifacts[k].name] == artifacts[k].version;
        }
      }
    }
  }

  // ----- Where the checks and the intention part

  /** A name that is answered for although the order does not list it. */
  predicate OnlyInherited(order: Order, name: string)
  {
    name !in order && name in INHERITED
  }

  predicate UsesInherited(order: Order, artifacts: seq<Artifact>)
  {
    exists i | 0 <= i < |artifacts| ::
      OnlyInherited(order, artifacts[i].name) || exists d | d in artifacts[i].dependencies :: OnlyInherited(order, d.name)
  }

  lemma {:induction false} AdmittedAscends(order: Order, host: Host, artifacts: seq<Artifact>, n: nat)
    requires n <= |artifacts| && Admitted(order, host, artifacts, n)
    requires forall i | 0 <= i < n :: artifacts[i].name in order
    ensures InOrder(order, artifacts, n)
  {
    if n > 1 {
      AdmittedAscends(order, host, artifacts, n - 1);
      assert !NotAfter(PlaceOf(order, host, artifacts[n - 1].name), PlaceOf(order, host, artifacts[n - 2].name));
      assert forall i | 0 <= i < n - 1 :: IndexOf(order, artifacts[i].name) <= IndexOf(order, artifacts[n - 2].name);
    }
  }

  lemma OrderIsAdmitted(order: Order, host: Host, artifacts: seq<Artifact>, n: nat)
    requires n <= |artifacts| && InOrder(order, artifacts, n)
    ensures Admitted(order, host, artifacts, n)
  {
    forall i, j | 0 <= i < j < n
      ensures artifacts[i].name != artifacts[j].name
    {
      assert IndexOf(order, artifacts[i].name) < IndexOf(order, artifacts[j].name);
    }
  }

  /**
   The checks let through every manifest that is as it should be, and of the others exactly those that pass with the
   name of a package or dependency that only the prototype answers for.
   */
  lemma AcceptanceIsRightIff(order: Order, host: Host, artifacts: seq<Artifact>)
    ensures ManifestOk(order, artifacts) <==> Passes(order, host, artifacts) && !UsesInherited(order, artifacts)
    ensures Passes(order, host, artifacts) ==> (ManifestOk(order, artifacts) <==> !UsesInherited(order, artifacts))
  {
    if ManifestOk(order, artifacts) {
      OrderIsAdmitted(order, host, artifacts, |artifacts|);
    }
    if Passes(order, host, artifacts) && !UsesInherited(order, artifacts) {
      forall i | 0 <= i < |artifacts|
        ensures artifacts[i].name in order
      {
        assert !PlaceOf(order, host, artifacts[i].name).Unknown? && !OnlyInherited(order, artifacts[i].name);
      }
      AdmittedAscends(order, host, artifacts, |artifacts|);
      forall i, d | 0 <= i < |artifacts| && d in artifacts[i].dependencies
        ensures d.name in order
      {
        assert Answered(order, d.name) && !OnlyInherited(order, d.name);
      }
    }
  }

  const TWO_PACKAGES: Order := ["wasm", "svelte"]

  const MISORDERED: seq<Artifact> :=
    [Artifact("svelte", "1.0.0", "sha512-s", []), Artifact("constructor", "1.0.0", "sha512-c", []),
     Artifact("wasm", "1.0.0", "sha512-w", [])]

  lemma PlacesOfTwo(host: Host)
    ensures PlaceOf(TWO_PACKAGES, host, "svelte") == At(1) && PlaceOf(TWO_PACKAGES, host, "wasm") == At(0)
    ensures PlaceOf(TWO_PACKAGES, host, "constructor") == Inherited(host("constructor"))
  {
    assert TWO_PACKAGES[1..] == ["svelte"];
    assert "wasm"[0] != "svelte"[0] && "wasm"[0] != "constructor"[0] && "svelte"[0] != "constructor"[0];
  }

  /** A package called "constructor" passes, and switches the comparison off for the package after it. */
  lemma InheritedPackagePasses(host: Host)
    ensures Passes(TWO_PACKAGES, host, MISORDERED) && !InOrder(TWO_PACKAGES, MISORDERED, 3)
    ensures IndexOf(TWO_PACKAGES, MISORDERED[0].name) > IndexOf(TWO_PACKAGES, MISORDERED[2].name) >= 0
  {
    PlacesOfTwo(host);
    assert "wasm"[0] != "svelte"[0] && "wasm"[0] != "constructor"[0] && "svelte"[0] != "constructor"[0];
    assert Unique(MISORDERED, 3);
    assert forall i | 0 <= i < 3 :: MISORDERED[i].dependencies == [];
    assert !(IndexOf(TWO_PACKAGES, MISORDERED[0].name) < IndexOf(TWO_PACKAGES, MISORDERED[2].name));
  }

  /** So does a dependency called "toString". */
  lemma InheritedDependencyPasses(host: Host)
    ensures exists order: Order, artifacts: seq<Artifact> ::
              Passes(order, host, artifacts) && artifacts[0].dependencies == [Identity("toString", "1.0.0")] &&
              "toString" !in order
  {
    var order: Order := ["wasm"];
    assert "wasm"[0] != "toString"[0];
    var d := Identity("toString", "1.0.0");
    var artifacts := [Artifact("wasm", "1.0.0", "sha512-w", [d])];
    assert artifacts[0].dependencies == [d] && IndexOf(order, "wasm") == 0 && "toString" in INHERITED;
    assert Passes(order, host, artifacts);
  }

  // ----- The workspace graph

  /** A workspace package: whether it must be in the order, its scripts, and its internal dependencies. */
  datatype Package = Package(required: bool, build: bool, typecheck: bool, dependencies: seq<string>)

  ghost predicate RunsAfter(order: seq<string>, workspace: map<string, Package>, n: nat)
    requires n < |order|
  {
    && order[n] in workspace
    && workspace[order[n]].build
    && workspace[order[n]].typecheck
    && forall d | d in workspace[order[n]].dependencies && d in order :: IndexOf(order, d) < n
  }

  /** What validateWorkspaceGraph decides: the order lists what it must, each package after its dependencies. */
  ghost predicate GraphOk(order: seq<string>, workspace: map<string, Package>)
  {
    && Distinct(order)
    && (forall name | name in workspace && workspace[name].required :: name in order)
    && (forall n | 0 <= n < |order| :: RunsAfter(order, workspace, n))
  }

  method CheckPackagePlace(order: seq<string>, workspace: map<string, Package>, n: nat) returns (verdict: Verdict)
    requires n < |order| && order[n] in workspace
    ensures verdict.Accepted? <==> RunsAfter(order, workspace, n)
  {
    var package := workspace[order[n]];
    if !package.build { return Rejected("must declare a build script"); }
    if !package.typecheck { return Rejected("must declare a typecheck script"); }
    for m := 0 to |package.dependencies|
      invariant forall k | 0 <= k < m && package.dependencies[k] in order :: IndexOf(order, package.dependencies[k]) < n
    {
      var index := IndexOf(order, package.dependencies[m]);
      if index >= 0 && index >= n {
        assert package.dependencies[m] in order;
        return Rejected("must run after its dependency");
      }
    }
    verdict := Accepted;
  }

  method ValidateWorkspaceGraph(order: seq<string>, workspace: map<string, Package>) returns (verdict: Verdict)
    ensures verdict.Accepted? <==> GraphOk(order, workspace)
  {
    if exists i, j | 0 <= i < j < |order| :: order[i] == order[j] {
      return Rejected("the publishable package graph contains a duplicate package");
    }
    if exists name | name in workspace :: workspace[name].required && name !in order {
      return Rejected("canonical package graph mismatch: missing");
    }
    if exists n | 0 <= n < |order| :: order[n] !in workspace {
      ghost var n :| 0 <= n < |order| && order[n] !in workspace;
      assert !RunsAfter(order, workspace, n);
      return Rejected("canonical package graph mismatch: unknown");
    }
    for n := 0 to |order|
      invariant forall k | 0 <= k < n :: RunsAfter(order, workspace, k)
    {
      verdict := CheckPackagePlace(order, workspace, n);
      if verdict.Rejected? { return; }
    }
    verdict := Accepted;
  }

  /** The recorded internal dependencies are among those the workspace declares for the package. */
  ghost predicate DeclaredIn(workspace: map<string, Package>, artifacts: seq<Artifact>)
  {
    forall i, d | 0 <= i < |artifacts| && d in artifacts[i].dependencies ::
      artifacts[i].name in workspace && d.name in workspace[artifacts[i].name].dependencies
  }

  lemma IndexMonotone(order: Order, artifacts: seq<Artifact>, i: nat, k: nat)
    requires InOrder(order, artifacts, |artifacts|) && i <= k < |artifacts|
    ensures IndexOf(order, artifacts[i].name) <= IndexOf(order, artifacts[k].name)
  {
  }

  /**
   The two checks together put every packaged dependency before the package that needs it, when no name that decides
   the first is an inherited one.
   */
  lemma ChecksGiveOrder(order: Order, host: Host, workspace: map<string, Package>, artifacts: seq<Artifact>)
    requires Passes(order, host, artifacts) && GraphOk(order, workspace) && DeclaredIn(workspace, artifacts)
    requires !UsesInherited(order, artifacts)
    ensures Consistent(artifacts) && Ordered(artifacts)
  {
    AcceptanceIsRightIff(order, host, artifacts);
    forall i, k, d | 0 <= i < |artifacts| && 0 <= k < |artifacts| && d in artifacts[i].dependencies && artifacts[k].name == d.name
      ensures k < i
    {
      var n := IndexOf(order, artifacts[i].name);
      assert RunsAfter(order, workspace, n);
      assert IndexOf(order, artifacts[k].name) < n;
      if i <= k { IndexMonotone(order, artifacts, i, k); }
    }
  }
}
