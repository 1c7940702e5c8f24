/** What the packages that a run reports say, field by field, and that the registry agrees. */
module PublishReports {
  import opened PackageOrder
  import opened ReleaseManifest
  import opened PublishProtocol
  import opened PublishRun

  /** A reported package has the name, the version and the integrity of the artifact. */
  predicate Reports(f: Published, a: Artifact)
  {
    f.name == a.name && f.version == a.version && f.integrity == a.integrity
  }

  /** The registry has the reported version with the reported integrity. */
  ghost predicate Registered(p: Packages, f: Published)
  {
    Identity(f.name, f.version) in p && p[Identity(f.name, f.version)].integrity == f.integrity
  }

  // ----- Over whole behaviours, whatever other runs do, and wherever this one stopped

  /** Verified packages are the first artifacts in order, and all that is reported is registered as reported. */
  ghost predicate Truthful(p: Packages, r: Run)
  {
    && |r.verified| <= |r.artifacts|
    && (forall i | 0 <= i < |r.verified| :: Reports(r.verified[i], r.artifacts[i]))
    && (forall f | f in r.verified :: Registered(p, f))
    && (forall f | f in r.newly :: f in r.verified)
  }

  lemma TruthPersists(p: Packages, later: Packages, r: Run)
    requires Truthful(p, r) && Extends(p, later)
    ensures Truthful(later, r)
  {
    forall f | Registered(p, f) ensures Registered(later, f) { }
  }

  lemma ProgressCounts(p: Packages, r: Run, n: nat)
    requires Progress(p, r, n)
    ensures |r.verified| == n
  {
  }

  lemma OneMore(p: Packages, r: Run, r': Run, n: nat)
    requires Truthful(p, r) && |r.verified| == n < |r.artifacts| && Present(p, r.artifacts[n]) && r'.artifacts == r.artifacts
    requires r'.verified == r.verified + [PublishedOf(r.artifacts[n])]
    requires r'.newly == r.newly || r'.newly == r.newly + [PublishedOf(r.artifacts[n])]
    ensures Truthful(p, r')
  {
    var f := PublishedOf(r.artifacts[n]);
    assert Reports(f, r.artifacts[n]) && Identity(f.name, f.version) == r.artifacts[n].Id();
    assert Registered(p, f);
  }

  lemma QuietKeepsTruth(p: Packages, r: Run, r': Run)
    requires RunInv(p, r) && Truthful(p, r) && QuietStep(p, r, r')
    ensures Truthful(p, r')
  {
    if AskStep(p, r, r') && r'.phase.Asking? && r.phase.package < |r.artifacts| {
      ProgressCounts(p, r, r.phase.package);
      OneMore(p, r, r', r.phase.package);
    } else if ReplyStep(r, r') {
      ProgressCounts(p, r, r.phase.package);
      OneMore(p, r, r', r.phase.package);
    }
  }

  ghost predicate AllTruthful(w: World)
  {
    forall k | 0 <= k < |w.runs| :: Truthful(w.registry, w.runs[k])
  }

  lemma TruthStays(w: World, w': World, k: nat)
    requires Inv(w) && AllTruthful(w) && Next(w, w') && k < |w'.runs|
    ensures Truthful(w'.registry, w'.runs[k])
  {
    NextKeepsInv(w, w');
    if StartStep(w, w') {
    } else if id, entry :| ForeignStep(w, id, entry, w') {
      TruthPersists(w.registry, w'.registry, w.runs[k]);
    } else {
      var l: nat :| l < |w.runs| && RunStep(w, l, w');
      TruthPersists(w.registry, w'.registry, w.runs[k]);
      if l == k && !AcceptStep(w, l, w') { QuietKeepsTruth(w.registry, w.runs[k], w'.runs[k]); }
    }
  }

  lemma {:induction false} TruthHolds(trace: seq<World>, i: nat)
    requires Behaviour(trace) && i < |trace|
    ensures AllTruthful(trace[i])
  {
    if i > 0 {
      TruthHolds(trace, i - 1);
      InvHolds(trace, i - 1);
      assert Next(trace[i - 1], trace[i - 1 + 1]);
      forall k | 0 <= k < |trace[i].runs| ensures Truthful(trace[i].registry, trace[i].runs[k]) {
        TruthStays(trace[i - 1], trace[i], k);
      }
    }
  }

  /**
   At every moment of every behaviour, also of runs that were stopped: what a run reports as verified are its first
   artifacts, in order, with their names, versions and integrities; what it reports as newly published is among them; and
   the registry has each of them with this integrity from then on.
   */
  lemma ReportsAreTrue(trace: seq<World>, i: nat, j: nat, k: nat)
    requires Behaviour(trace) && i <= j < |trace| && k < |trace[i].runs|
    ensures var r := trace[i].runs[k];
            && |r.verified| <= |r.artifacts|
            && (forall n | 0 <= n < |r.verified| ::
                  && r.verified[n].name == r.artifacts[n].name
                  && r.verified[n].version == r.artifacts[n].version
                  && r.verified[n].integrity == r.artifacts[n].integrity)
            && (forall f | f in r.newly :: f in r.verified)
            && (forall f | f in r.verified ::
                  && Identity(f.name, f.version) in trace[j].registry
                  && trace[j].registry[Identity(f.name, f.version)].integrity == f.integrity)
  {
    TruthHolds(trace, i);
    var r := trace[i].runs[k];
    assert Truthful(trace[i].registry, r);
    RegistryIsAppendOnly(trace, i, j);
    TruthPersists(trace[i].registry, trace[j].registry, r);
    forall n | 0 <= n < |r.verified| ensures Reports(r.verified[n], r.artifacts[n]) { }
    forall f | f in r.verified ensures Registered(trace[j].registry, f) { }
  }

  // ----- Of a run that completes alone

  lemma {:induction false} MissingMeans(p: Packages, artifacts: seq<Artifact>, n: nat, f: Published)
    requires n <= |artifacts| && DistinctIds(artifacts)
    ensures f in Missing(p, artifacts, n) <==>
            exists i | 0 <= i < n :: Reports(f, artifacts[i]) && Identity(artifacts[i].name, artifacts[i].version) !in p
  {
    if n > 0 {
      var a := artifacts[n - 1];
      MissingMeans(p, artifacts, n - 1, f);
      RegisteredBy(p, artifacts, n - 1, a.Id());
      assert !AmongFirst(artifacts, n - 1, a.Id());
      assert a.Id() == Identity(a.name, a.version);
      assert Reports(f, a) <==> f == PublishedOf(a);
    }
  }

  lemma ReachedIsRegistered(p: Packages, artifacts: seq<Artifact>, i: nat)
    requires i < |artifacts| && Reached(p, artifacts, |artifacts|)
    ensures Registered(AddMissing(p, artifacts, i + 1), PublishedOf(artifacts[i]))
  {
    assert !Conflict(p, artifacts, i);
    assert artifacts[i].Id() == Identity(artifacts[i].name, artifacts[i].version);
  }

  /**
   A completed run reports every artifact as verified, in order and with its fields, and as newly published exactly those
   whose version was not registered before; the registry then has all of them, and nothing else that it did not have.
   */
  lemma CompletedMeans(p: Packages, artifacts: seq<Artifact>, q: Packages, verified: seq<Published>, newly: seq<Published>)
    requires DistinctIds(artifacts) && Completed(p, artifacts, q, verified, newly)
    ensures |verified| == |artifacts|
    ensures forall i | 0 <= i < |artifacts| ::
              && verified[i].name == artifacts[i].name && verified[i].version == artifacts[i].version
              && verified[i].integrity == artifacts[i].integrity
    ensures forall f | f in verified :: Identity(f.name, f.version) in q && q[Identity(f.name, f.version)].integrity == f.integrity
    ensures forall f :: f in newly <==> exists i | 0 <= i < |artifacts| ::
              Reports(f, artifacts[i]) && Identity(artifacts[i].name, artifacts[i].version) !in p
    ensures Extends(p, q)
    ensures forall id :: id in q <==> id in p || exists i | 0 <= i < |artifacts| :: id == Identity(artifacts[i].name, artifacts[i].version)
  {
    forall f { MissingMeans(p, artifacts, |artifacts|, f); }
    forall f | f in verified ensures Registered(q, f) {
      var i :| 0 <= i < |verified| && verified[i] == f;
      ReachedIsRegistered(p, artifacts, i);
      AddMissingExtends(p, artifacts, i + 1, |artifacts|);
    }
    AddMissingExtends(p, artifacts, 0, |artifacts|);
    forall id
      ensures id in q <==> id in p || exists i | 0 <= i < |artifacts| :: id == Identity(artifacts[i].name, artifacts[i].version)
    {
      RegisteredBy(p, artifacts, |artifacts|, id);
      assert forall i | 0 <= i < |artifacts| :: artifacts[i].Id() == Identity(artifacts[i].name, artifacts[i].version);
    }
  }
}
