/**
 Publication to an append-only registry, as a state machine over its atomic steps. Any number of runs overlap;
 a run may stop between any two steps, also after the registry has accepted a package and before the reply;
 a query may miss a package that is already there; and others may publish packages of their own.
 */
module PublishProtocol {
  import opened PackageOrder
  import opened ReleaseManifest

  datatype Published = Published(name: string, version: string, integrity: string)
  datatype Entry = Entry(integrity: string, dependencies: seq<Identity>)
  type Packages = map<Identity, Entry>

  function EntryOf(a: Artifact): Entry { Entry(a.integrity, a.dependencies) }

  function PublishedOf(a: Artifact): Published { Published(a.name, a.version, a.integrity) }

  function AllPublished(artifacts: seq<Artifact>): seq<Published>
  {
    seq(|artifacts|, i requires 0 <= i < |artifacts| => PublishedOf(artifacts[i]))
  }

  /** Every dependency of a registered package is registered. */
  ghost predicate Closed(packages: Packages)
  {
    forall id, d | id in packages && d in packages[id].dependencies :: d in packages
  }

  /** Nothing registered is removed or overwritten. */
  ghost predicate Extends(packages: Packages, later: Packages)
  {
    forall id | id in packages :: id in later && later[id] == packages[id]
  }

  datatype Phase =
    | Checking(package: nat, dependency: nat)
    | Asking(package: nat)
    | Publishing(package: nat)
    | Unanswered(package: nat)
    | Finished
    | Stopped

  datatype Run = Run(artifacts: seq<Artifact>, phase: Phase, checked: set<Identity>,
                     verified: seq<Published>, newly: seq<Published>)

  datatype Acceptance = Acceptance(run: nat, id: Identity)

  datatype World = World(registry: Packages, runs: seq<Run>, accepted: seq<Acceptance>)

  function NewRun(artifacts: seq<Artifact>): Run { Run(artifacts, Checking(0, 0), {}, [], []) }

  /** One dependency check: packaged and already checked names are skipped, others must be registered. */
  ghost predicate CheckStep(p: Packages, r: Run, r': Run)
  {
    r.phase.Checking? &&
    var i, j := r.phase.package, r.phase.dependency;
    if i >= |r.artifacts| then r' == r.(phase := Asking(0))
    else if j >= |r.artifacts[i].dependencies| then r' == r.(phase := Checking(i + 1, 0))
    else
      var d := r.artifacts[i].dependencies[j];
      if Packaged(r.artifacts, d.name) || d in r.checked then r' == r.(phase := Checking(i, j + 1))
      else d in p && r' == r.(phase := Checking(i, j + 1), checked := r.checked + {d})
  }

  /** The registry is asked for the next package. A found package must have the manifest's integrity. */
  ghost predicate AskStep(p: Packages, r: Run, r': Run)
  {
    r.phase.Asking? &&
    var i := r.phase.package;
    if i >= |r.artifacts| then r' == r.(phase := Finished)
    else
      var a := r.artifacts[i];
      || r' == r.(phase := Publishing(i))
      || (a.Id() in p && p[a.Id()].integrity == a.integrity &&
          r' == r.(phase := Asking(i + 1), verified := r.verified + [PublishedOf(a)]))
  }

  ghost predicate ReplyStep(r: Run, r': Run)
  {
    r.phase.Unanswered? && r.phase.package < |r.artifacts| &&
    var a := r.artifacts[r.phase.package];
    r' == r.(phase := Asking(r.phase.package + 1), verified := r.verified + [PublishedOf(a)], newly := r.newly + [PublishedOf(a)])
  }

  /** Steps that leave the registry as it is; a crash, a failed check or a refused publication stops the run. */
  ghost predicate QuietStep(p: Packages, r: Run, r': Run)
  {
    CheckStep(p, r, r') || AskStep(p, r, r') || ReplyStep(r, r') || r' == r.(phase := Stopped)
  }

  /** The registry accepts a package it does not have yet. */
  ghost predicate AcceptStep(w: World, k: nat, w': World)
  {
    k < |w.runs| && w.runs[k].phase.Publishing? && w.runs[k].phase.package < |w.runs[k].artifacts| &&
    var r := w.runs[k];
    var a := r.artifacts[r.phase.package];
    a.Id() !in w.registry &&
    w' == World(w.registry[a.Id() := EntryOf(a)],
                w.runs[k := r.(phase := Unanswered(r.phase.package))],
                w.accepted + [Acceptance(k, a.Id())])
  }

  ghost predicate StartStep(w: World, w': World)
  {
    |w'.runs| == |w.runs| + 1 &&
    var artifacts := w'.runs[|w.runs|].artifacts;
    Consistent(artifacts) && Ordered(artifacts) && w' == w.(runs := w.runs + [NewRun(artifacts)])
  }

  /** Another publisher adds a package whose dependencies are registered. */
  ghost predicate ForeignStep(w: World, id: Identity, entry: Entry, w': World)
  {
    && id !in w.registry
    && (forall d | d in entry.dependencies :: d in w.registry)
    && w' == w.(registry := w.registry[id := entry])
  }

  ghost predicate RunStep(w: World, k: nat, w': World)
  {
    || AcceptStep(w, k, w')
    || (k < |w.runs| && |w'.runs| == |w.runs| && QuietStep(w.registry, w.runs[k], w'.runs[k]) &&
        w' == w.(runs := w.runs[k := w'.runs[k]]))
  }

  ghost predicate Next(w: World, w': World)
  {
    || StartStep(w, w')
    || (exists id, entry :: ForeignStep(w, id, entry, w'))
    || (exists k: nat | k < |w.runs| :: RunStep(w, k, w'))
  }

  ghost predicate Present(p: Packages, a: Artifact)
  {
    a.Id() in p && p[a.Id()].integrity == a.integrity
  }

  /** The dependencies before position j of package i, and all those of the packages before it, that are not packaged. */
  ghost predicate ForeignPresent(p: Packages, artifacts: seq<Artifact>, i: nat, j: nat)
  {
    forall n, m | 0 <= n < |artifacts| && 0 <= m < |artifacts[n].dependencies| && (n < i || (n == i && m < j)) ::
      Packaged(artifacts, artifacts[n].dependencies[m].name) || artifacts[n].dependencies[m] in p
  }

  ghost predicate Progress(p: Packages, r: Run, n: nat)
  {
    && n <= |r.artifacts|
    && ForeignPresent(p, r.artifacts, |r.artifacts|, 0)
    && r.verified == AllPublished(r.artifacts[..n])
    && forall i | 0 <= i < n :: Present(p, r.artifacts[i])
  }

  ghost predicate RunInv(p: Packages, r: Run)
  {
    && Consistent(r.artifacts)
    && Ordered(r.artifacts)
    && r.checked <= p.Keys
    && match r.phase
       case Checking(i, j) =>
         i <= |r.artifacts| && ForeignPresent(p, r.artifacts, i, j) && r.verified == []
       case Asking(n) => Progress(p, r, n)
       case Publishing(n) => n < |r.artifacts| && Progress(p, r, n)
       case Unanswered(n) => n < |r.artifacts| && Progress(p, r, n) && Present(p, r.artifacts[n])
       case Finished => Progress(p, r, |r.artifacts|)
       case Stopped => true
  }

  lemma ProgressPersists(p: Packages, later: Packages, r: Run)
    requires RunInv(p, r) && Extends(p, later)
    ensures RunInv(later, r)
  {
    forall a: Artifact | Present(p, a) ensures Present(later, a) { }
  }

  /** One more verified package. */
  lemma ProgressGrows(p: Packages, r: Run, r': Run, n: nat)
    requires Progress(p, r, n) && n < |r.artifacts| && Present(p, r.artifacts[n])
    requires r'.artifacts == r.artifacts && r'.verified == r.verified + [PublishedOf(r.artifacts[n])]
    ensures Progress(p, r', n + 1)
  {
    assert r.artifacts[..n + 1] == r.artifacts[..n] + [r.artifacts[n]];
  }

  lemma CheckKeepsInv(p: Packages, r: Run, r': Run)
    requires RunInv(p, r) && CheckStep(p, r, r')
    ensures RunInv(p, r')
  {
    var i, j := r.phase.package, r.phase.dependency;
    if i >= |r.artifacts| {
      assert r.artifacts[..0] == [];
    } else if j < |r.artifacts[i].dependencies| {
      var d := r.artifacts[i].dependencies[j];
      assert Packaged(r.artifacts, d.name) || d in p;
    }
  }

  lemma QuietKeepsInv(p: Packages, r: Run, r': Run)
    requires RunInv(p, r) && QuietStep(p, r, r')
    ensures RunInv(p, r')
  {
    if CheckStep(p, r, r') {
      CheckKeepsInv(p, r, r');
    } else if AskStep(p, r, r') {
      var n := r.phase.package;
      if n < |r.artifacts| && r'.phase.Asking? { ProgressGrows(p, r, r', n); }
    } else if ReplyStep(r, r') {
      ProgressGrows(p, r, r', r.phase.package);
    }
  }

  /** When a package is about to be published, everything it depends on is registered. */
  lemma DependenciesPresent(p: Packages, r: Run, n: nat)
    requires RunInv(p, r) && n < |r.artifacts| && Progress(p, r, n)
    ensures forall d | d in r.artifacts[n].dependencies :: d in p
  {
    forall d | d in r.artifacts[n].dependencies
      ensures d in p
    {
      var m :| 0 <= m < |r.artifacts[n].dependencies| && r.artifacts[n].dependencies[m] == d;
      if Packaged(r.artifacts, d.name) {
        var k :| 0 <= k < |r.artifacts| && r.artifacts[k].name == d.name;
        assert k < n && r.artifacts[k].version == d.version;
        assert Present(p, r.artifacts[k]) && r.artifacts[k].Id() == d;
      } else {
        assert r.artifacts[n].dependencies[m] in p;
      }
    }
  }

  function IdOf(f: Published): Identity { Identity(f.name, f.version) }

  /** Every package a run reports as newly published, or has had accepted, is on the registry's ledger under that run. */
  ghost predicate OnLedger(accepted: seq<Acceptance>, k: nat, r: Run)
  {
    && (forall f | f in r.newly :: Acceptance(k, IdOf(f)) in accepted)
    && (r.phase.Unanswered? && r.phase.package < |r.artifacts| ==>
          Acceptance(k, r.artifacts[r.phase.package].Id()) in accepted)
  }

  ghost predicate AcceptedOnce(registry: Packages, accepted: seq<Acceptance>)
  {
    && (forall i | 0 <= i < |accepted| :: accepted[i].id in registry)
    && (forall i, j | 0 <= i < j < |accepted| :: accepted[i].id != accepted[j].id)
  }

  ghost predicate Inv(w: World)
  {
    && Closed(w.registry)
    && AcceptedOnce(w.registry, w.accepted)
    && (forall k | 0 <= k < |w.runs| :: RunInv(w.registry, w.runs[k]))
    && (forall k | 0 <= k < |w.runs| :: OnLedger(w.accepted, k, w.runs[k]))
  }

  lemma RunsPersist(w: World, later: Packages)
    requires Inv(w) && Extends(w.registry, later)
    ensures forall k | 0 <= k < |w.runs| :: RunInv(later, w.runs[k])
  {
    forall k | 0 <= k < |w.runs|
      ensures RunInv(later, w.runs[k])
    {
      ProgressPersists(w.registry, later, w.runs[k]);
    }
  }

  lemma AcceptKeepsInv(w: World, k: nat, w': World)
    requires Inv(w) && AcceptStep(w, k, w')
    ensures Inv(w') && Extends(w.registry, w'.registry)
  {
    var r := w.runs[k];
    var n := r.phase.package;
    var a := r.artifacts[n];
    DependenciesPresent(w.registry, r, n);
    RunsPersist(w, w'.registry);
    assert RunInv(w'.registry, r);
    assert RunInv(w'.registry, w'.runs[k]);
    forall l | 0 <= l < |w'.runs|
      ensures RunInv(w'.registry, w'.runs[l]) && OnLedger(w'.accepted, l, w'.runs[l])
    {
      assert OnLedger(w.accepted, l, w.runs[l]);
      if l == k { assert w'.accepted[|w.accepted|] == Acceptance(k, a.Id()); }
    }
  }

  lemma QuietStepKeepsInv(w: World, k: nat, w': World)
    requires Inv(w) && k < |w.runs| && |w'.runs| == |w.runs|
    requires QuietStep(w.registry, w.runs[k], w'.runs[k]) && w' == w.(runs := w.runs[k := w'.runs[k]])
    ensures Inv(w')
  {
    var r, r' := w.runs[k], w'.runs[k];
    QuietKeepsInv(w.registry, r, r');
    assert OnLedger(w.accepted, k, r);
    if ReplyStep(r, r') {
      assert IdOf(PublishedOf(r.artifacts[r.phase.package])) == r.artifacts[r.phase.package].Id();
    }
    assert OnLedger(w.accepted, k, r');
  }

  lemma StartKeepsInv(w: World, w': World)
    requires Inv(w) && StartStep(w, w')
    ensures Inv(w')
  {
  }

  lemma ForeignKeepsInv(w: World, id: Identity, entry: Entry, w': World)
    requires Inv(w) && ForeignStep(w, id, entry, w')
    ensures Inv(w') && Extends(w.registry, w'.registry)
  {
    RunsPersist(w, w'.registry);
  }

  /** Every step keeps the invariant, only adds to the registry and only adds to the ledger. */
  lemma NextKeepsInv(w: World, w': World)
    requires Inv(w) && Next(w, w')
    ensures Inv(w') && Extends(w.registry, w'.registry) && w.accepted <= w'.accepted
  {
    if StartStep(w, w') {
      StartKeepsInv(w, w');
    } else if k: nat :| k < |w.runs| && RunStep(w, k, w') {
      if AcceptStep(w, k, w') { AcceptKeepsInv(w, k, w'); } else { QuietStepKeepsInv(w, k, w'); }
    } else {
      var id, entry :| ForeignStep(w, id, entry, w');
      ForeignKeepsInv(w, id, entry, w');
    }
  }

  /** A run of the whole system from a closed registry before any publication. */
  ghost predicate Behaviour(trace: seq<World>)
  {
    && trace != []
    && Closed(trace[0].registry) && trace[0].runs == [] && trace[0].accepted == []
    && forall i | 0 <= i < |trace| - 1 :: Next(trace[i], trace[i + 1])
  }

  lemma {:induction false} InvHolds(trace: seq<World>, i: nat)
    requires Behaviour(trace) && i < |trace|
    ensures Inv(trace[i])
  {
    if i > 0 {
      InvHolds(trace, i - 1);
      assert Next(trace[i - 1], trace[i - 1 + 1]);
      NextKeepsInv(trace[i - 1], trace[i]);
    }
  }

  /** Over any behaviour the registry stays closed under dependencies, and nothing in it is ever overwritten. */
  lemma {:induction false} RegistryIsAppendOnly(trace: seq<World>, i: nat, j: nat)
    requires Behaviour(trace) && i <= j < |trace|
    ensures Closed(trace[i].registry) && Closed(trace[j].registry) && Extends(trace[i].registry, trace[j].registry)
    decreases j
  {
    InvHolds(trace, i);
    InvHolds(trace, j);
    if i < j {
      RegistryIsAppendOnly(trace, i, j - 1);
      InvHolds(trace, j - 1);
      assert Next(trace[j - 1], trace[j - 1 + 1]);
      NextKeepsInv(trace[j - 1], trace[j]);
    }
  }

  /** No identity is accepted twice, and no two runs report the same package as newly published. */
  lemma PublishedOnce(trace: seq<World>, i: nat, k: nat, l: nat)
    requires Behaviour(trace) && i < |trace| && k < |trace[i].runs| && l < |trace[i].runs| && k != l
    ensures forall m, n | 0 <= m < n < |trace[i].accepted| :: trace[i].accepted[m].id != trace[i].accepted[n].id
    ensures forall f, g | f in trace[i].runs[k].newly && g in trace[i].runs[l].newly :: IdOf(f) != IdOf(g)
  {
    InvHolds(trace, i);
    var w := trace[i];
    assert OnLedger(w.accepted, k, w.runs[k]) && OnLedger(w.accepted, l, w.runs[l]);
    forall f, g | f in w.runs[k].newly && g in w.runs[l].newly
      ensures IdOf(f) != IdOf(g)
    {
      var m :| 0 <= m < |w.accepted| && w.accepted[m] == Acceptance(k, IdOf(f));
      var n :| 0 <= n < |w.accepted| && w.accepted[n] == Acceptance(l, IdOf(g));
      assert m != n;
    }
  }

  /** A run that finished has verified exactly its artifacts in order, and they stay registered as verified. */
  lemma FinishedRunVerifiedAll(trace: seq<World>, i: nat, j: nat, k: nat)
    requires Behaviour(trace) && i <= j < |trace| && k < |trace[i].runs| && trace[i].runs[k].phase.Finished?
    ensures var r := trace[i].runs[k];
            r.verified == AllPublished(r.artifacts) && forall a | a in r.artifacts :: Present(trace[j].registry, a)
  {
    InvHolds(trace, i);
    RegistryIsAppendOnly(trace, i, j);
    var r := trace[i].runs[k];
    assert RunInv(trace[i].registry, r);
    assert r.artifacts[..|r.artifacts|] == r.artifacts;
  }
}
