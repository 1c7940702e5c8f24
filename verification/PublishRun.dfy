/** One publication run from start to end, in the form of the source's loops. */
module PublishRun {
  import opened Wrappers
  import opened PackageOrder
  import opened ReleaseManifest
  import opened PublishProtocol

  /** How a command goes: it may fail, a publication with or without effect, or its reply may name another package. */
  datatype Reply = Works | Fails(applied: bool) | Misnames(id: Identity)

  datatype Answer = NotFound | Found(id: Identity, entry: Entry) | Unanswerable

  datatype Outcome =
    | Done(verified: seq<Published>, newly: seq<Published>)
    | MissingDependency(id: Identity)
    | IntegrityMismatch(id: Identity)
    | Failed

  function Named(reply: Reply, id: Identity): Identity
  {
    if reply.Misnames? then reply.id else id
  }

  /** The registry as the run sees it. */
  class Registry {
    var packages: Packages
    const replies: nat -> Reply
    var commands: nat

    constructor (packages: Packages, replies: nat -> Reply)
      ensures this.packages == packages && this.replies == replies && commands == 0
    {
      this.packages := packages;
      this.replies := replies;
      commands := 0;
    }

    method Existing(id: Identity) returns (answer: Answer)
      modifies this`commands
      ensures commands == old(commands) + 1
      ensures answer == if replies(old(commands)).Fails? then Unanswerable
                        else if id in packages then Found(Named(replies(old(commands)), id), packages[id]) else NotFound
    {
      var reply := replies(commands);
      commands := commands + 1;
      if reply.Fails? { answer := Unanswerable; }
      else if id in packages { answer := Found(Named(reply, id), packages[id]); }
      else { answer := NotFound; }
    }

    /** The name and version that the command reports, if it works. */
    method Publish(a: Artifact) returns (reported: Option<Identity>)
      requires a.Id() !in packages
      modifies this
      ensures commands == old(commands) + 1
      ensures reported == if replies(old(commands)).Fails? then None else Some(Named(replies(old(commands)), a.Id()))
      ensures packages == if replies(old(commands)) == Fails(false) then old(packages)
                          else old(packages)[a.Id() := EntryOf(a)]
    {
      var reply := replies(commands);
      commands := commands + 1;
      if reply != Fails(false) { packages := packages[a.Id() := EntryOf(a)]; }
      reported := if reply.Fails? then None else Some(Named(reply, a.Id()));
    }
  }

  /** The registry after the first n artifacts have been published where they were missing. */
  ghost function AddMissing(p: Packages, artifacts: seq<Artifact>, n: nat): Packages
    requires n <= |artifacts|
  {
    if n == 0 then p
    else
      var q, a := AddMissing(p, artifacts, n - 1), artifacts[n - 1];
      if a.Id() in q then q else q[a.Id() := EntryOf(a)]
  }

  ghost function Missing(p: Packages, artifacts: seq<Artifact>, n: nat): seq<Published>
    requires n <= |artifacts|
  {
    if n == 0 then []
    else
      var a := artifacts[n - 1];
      Missing(p, artifacts, n - 1) + (if a.Id() in AddMissing(p, artifacts, n - 1) then [] else [PublishedOf(a)])
  }

  /** The n-th artifact is registered with other contents by the time the run reaches it. */
  ghost predicate Conflict(p: Packages, artifacts: seq<Artifact>, n: nat)
    requires n < |artifacts|
  {
    var q, a := AddMissing(p, artifacts, n), artifacts[n];
    a.Id() in q && q[a.Id()].integrity != a.integrity
  }

  /** The run gets as far as the n-th artifact. */
  ghost predicate Reached(p: Packages, artifacts: seq<Artifact>, n: nat)
    requires n <= |artifacts|
  {
    forall m | 0 <= m < n :: !Conflict(p, artifacts, m)
  }

  lemma {:induction false} AddMissingExtends(p: Packages, artifacts: seq<Artifact>, m: nat, n: nat)
    requires m <= n <= |artifacts|
    ensures Extends(AddMissing(p, artifacts, m), AddMissing(p, artifacts, n))
    ensures forall i | 0 <= i < n :: artifacts[i].Id() in AddMissing(p, artifacts, n)
    decreases n
  {
    if m < n {
      AddMissingExtends(p, artifacts, m, n - 1);
    } else if n > 0 {
      AddMissingExtends(p, artifacts, n - 1, n - 1);
    }
  }

  /** Running again publishes nothing. */
  lemma {:induction false} NothingMissingTwice(p: Packages, artifacts: seq<Artifact>, n: nat)
    requires n <= |artifacts|
    ensures AddMissing(AddMissing(p, artifacts, |artifacts|), artifacts, n) == AddMissing(p, artifacts, |artifacts|)
    ensures Missing(AddMissing(p, artifacts, |artifacts|), artifacts, n) == []
  {
    AddMissingExtends(p, artifacts, 0, |artifacts|);
    if n > 0 { NothingMissingTwice(p, artifacts, n - 1); }
  }

  /** A run that stopped after m artifacts and is started again reaches the registry of an uninterrupted run. */
  lemma {:induction false} RestartConverges(p: Packages, artifacts: seq<Artifact>, m: nat, n: nat)
    requires m <= |artifacts| && n <= |artifacts|
    ensures AddMissing(AddMissing(p, artifacts, m), artifacts, n) ==
            if m <= n then AddMissing(p, artifacts, n) else AddMissing(p, artifacts, m)
  {
    AddMissingExtends(p, artifacts, 0, m);
    if n > 0 { RestartConverges(p, artifacts, m, n - 1); }
  }

  /** The worlds of a single run, from its start. */
  ghost predicate Steps(trace: seq<World>, p: Packages, artifacts: seq<Artifact>)
  {
    && trace != []
    && trace[0] == World(p, [NewRun(artifacts)], [])
    && forall i | 0 <= i < |trace| - 1 :: RunStep(trace[i], 0, trace[i + 1])
  }

  ghost predicate At(trace: seq<World>, p: Packages, r: Run)
  {
    trace != [] && trace[|trace| - 1].registry == p && trace[|trace| - 1].runs == [r]
  }

  lemma Extend(trace: seq<World>, p: Packages, artifacts: seq<Artifact>, q: Packages, r: Run, r': Run)
    returns (longer: seq<World>)
    requires Steps(trace, p, artifacts) && At(trace, q, r) && QuietStep(q, r, r')
    ensures Steps(longer, p, artifacts) && At(longer, q, r')
  {
    var w := trace[|trace| - 1];
    var w' := w.(runs := [r']);
    longer := trace + [w'];
    assert w.runs[0 := r'] == [r'];
    forall i | 0 <= i < |longer| - 1
      ensures RunStep(longer[i], 0, longer[i + 1])
    {
      if i < |trace| - 1 { assert RunStep(trace[i], 0, trace[i + 1]); }
    }
  }

  lemma ExtendAccepted(trace: seq<World>, p: Packages, artifacts: seq<Artifact>, q: Packages, r: Run, n: nat)
    returns (longer: seq<World>)
    requires Steps(trace, p, artifacts) && At(trace, q, r) && r.phase == Publishing(n) && n < |r.artifacts|
    requires r.artifacts[n].Id() !in q
    ensures Steps(longer, p, artifacts)
    ensures At(longer, q[r.artifacts[n].Id() := EntryOf(r.artifacts[n])], r.(phase := Unanswered(n)))
  {
    var w := trace[|trace| - 1];
    var a := r.artifacts[n];
    var w' := World(q[a.Id() := EntryOf(a)], [r.(phase := Unanswered(n))], w.accepted + [Acceptance(0, a.Id())]);
    longer := trace + [w'];
    assert w.runs[0 := r.(phase := Unanswered(n))] == w'.runs;
    assert AcceptStep(w, 0, w');
    forall i | 0 <= i < |longer| - 1
      ensures RunStep(longer[i], 0, longer[i + 1])
    {
      if i < |trace| - 1 { assert RunStep(trace[i], 0, trace[i + 1]); }
    }
  }

  lemma Quiet(trace: seq<World>, p: Packages, artifacts: seq<Artifact>, q: Packages, r: Run, r': Run)
    returns (longer: seq<World>)
    requires Steps(trace, p, artifacts) && At(trace, q, r) && CheckStep(q, r, r')
    ensures Steps(longer, p, artifacts) && At(longer, q, r')
  {
    longer := Extend(trace, p, artifacts, q, r, r');
  }

  datatype Checked = AllThere | NotThere(id: Identity) | NoAnswer

  /** The first part of a run: dependencies outside the release must already be registered. */
  method CheckDependencies(registry: Registry, artifacts: seq<Artifact>)
    returns (result: Checked, ghost trace: seq<World>, ghost run: Run)
    modifies registry`commands
    ensures result.AllThere? ==> ForeignPresent(registry.packages, artifacts, |artifacts|, 0)
    ensures result.NotThere? ==> result.id !in registry.packages && !ForeignPresent(registry.packages, artifacts, |artifacts|, 0)
    ensures (forall k :: registry.replies(k).Works?) ==> !result.NoAnswer?
    ensures Steps(trace, registry.packages, artifacts) && At(trace, registry.packages, run)
    ensures result.AllThere? ==> run.artifacts == artifacts && run.phase == Asking(0) && run.verified == run.newly == []
  {
    ghost var p := registry.packages;
    var packagedNames := set a | a in artifacts :: a.name;
    assert forall name :: name in packagedNames <==> Packaged(artifacts, name);
    var checked: set<Identity> := {};
    run := NewRun(artifacts);
    trace := [World(p, [run], [])];
    for i := 0 to |artifacts|
      invariant Steps(trace, p, artifacts) && At(trace, p, run)
      invariant run == Run(artifacts, Checking(i, 0), checked, [], [])
      invariant checked <= p.Keys && ForeignPresent(p, artifacts, i, 0)
    {
      result, checked, trace, run := CheckPackage(registry, artifacts, i, packagedNames, checked, trace, run);
      if !result.AllThere? { return; }
      ghost var before := run;
      run := run.(phase := Checking(i + 1, 0));
      trace := Quiet(trace, p, artifacts, p, before, run);
    }
    ghost var before := run;
    run := run.(phase := Asking(0));
    trace := Quiet(trace, p, artifacts, p, before, run);
    result := AllThere;
  }

  /** The inner loop: the dependencies of one package. */
  method CheckPackage(registry: Registry, artifacts: seq<Artifact>, i: nat, packagedNames: set<string>, known: set<Identity>,
                      ghost begun: seq<World>, ghost start: Run)
    returns (result: Checked, checked: set<Identity>, ghost trace: seq<World>, ghost run: Run)
    requires i < |artifacts| && forall name :: name in packagedNames <==> Packaged(artifacts, name)
    requires Steps(begun, registry.packages, artifacts) && At(begun, registry.packages, start)
    requires start == Run(artifacts, Checking(i, 0), known, [], [])
    requires known <= registry.packages.Keys && ForeignPresent(registry.packages, artifacts, i, 0)
    modifies registry`commands
    ensures checked <= registry.packages.Keys
    ensures result.AllThere? ==>
              && run == Run(artifacts, Checking(i, |artifacts[i].dependencies|), checked, [], [])
              && ForeignPresent(registry.packages, artifacts, i + 1, 0)
    ensures result.NotThere? ==> result.id !in registry.packages && !ForeignPresent(registry.packages, artifacts, |artifacts|, 0)
    ensures (forall k :: registry.replies(k).Works?) ==> !result.NoAnswer?
    ensures Steps(trace, registry.packages, artifacts) && At(trace, registry.packages, run)
  {
    ghost var p := registry.packages;
    checked, trace, run := known, begun, start;
    var dependencies := artifacts[i].dependencies;
    for j := 0 to |dependencies|
      invariant Steps(trace, p, artifacts) && At(trace, p, run)
      invariant run == Run(artifacts, Checking(i, j), checked, [], [])
      invariant checked <= p.Keys && ForeignPresent(p, artifacts, i, j)
    {
      var d := dependencies[j];
      if d.name !in packagedNames && d !in checked {
        var answer := registry.Existing(d);
        if answer.NotFound? {
          MissingForeign(p, artifacts, i, j);
          return NotThere(d), checked, trace, run;
        }
        if answer.Unanswerable? || answer.id != d { return NoAnswer, checked, trace, run; }
        checked := checked + {d};
      }
      ghost var before := run;
      run := Run(artifacts, Checking(i, j + 1), checked, [], []);
      trace := Quiet(trace, p, artifacts, p, before, run);
    }
    result := AllThere;
  }

  lemma MissingForeign(p: Packages, artifacts: seq<Artifact>, i: nat, j: nat)
    requires i < |artifacts| && j < |artifacts[i].dependencies|
    requires !Packaged(artifacts, artifacts[i].dependencies[j].name) && artifacts[i].dependencies[j] !in p
    ensures !ForeignPresent(p, artifacts, |artifacts|, 0)
  {
  }

  lemma NextPublished(artifacts: seq<Artifact>, n: nat)
    requires n < |artifacts|
    ensures AllPublished(artifacts[..n + 1]) == AllPublished(artifacts[..n]) + [PublishedOf(artifacts[n])]
  {
  }

  /** The registry is that of an uninterrupted run after some of its packages. */
  ghost predicate PartWay(p: Packages, artifacts: seq<Artifact>, q: Packages)
  {
    exists n: nat | n <= |artifacts| && Reached(p, artifacts, n) :: q == AddMissing(p, artifacts, n)
  }

  ghost predicate Completed(p: Packages, artifacts: seq<Artifact>, q: Packages, verified: seq<Published>, newly: seq<Published>)
  {
    && Reached(p, artifacts, |artifacts|)
    && q == AddMissing(p, artifacts, |artifacts|)
    && verified == AllPublished(artifacts)
    && newly == Missing(p, artifacts, |artifacts|)
  }

  ghost predicate StoppedAt(p: Packages, artifacts: seq<Artifact>, q: Packages, id: Identity)
  {
    exists n: nat | n < |artifacts| && Reached(p, artifacts, n) ::
      id == artifacts[n].Id() && Conflict(p, artifacts, n) && q == AddMissing(p, artifacts, n)
  }

  /**
   A whole run without interference. It checks the dependencies outside the release, then publishes what is
   missing, until something fails; every step it takes is a step of the state machine.
   */
  method PublishArtifactsIdempotently(registry: Registry, artifacts: seq<Artifact>)
    returns (outcome: Outcome, ghost trace: seq<World>)
    modifies registry
    ensures PartWay(old(registry.packages), artifacts, registry.packages)
    ensures outcome.MissingDependency? ==>
              && !ForeignPresent(old(registry.packages), artifacts, |artifacts|, 0)
              && registry.packages == old(registry.packages) && outcome.id !in registry.packages
    ensures outcome.IntegrityMismatch? ==> StoppedAt(old(registry.packages), artifacts, registry.packages, outcome.id)
    ensures outcome.Done? ==>
              && ForeignPresent(old(registry.packages), artifacts, |artifacts|, 0)
              && Completed(old(registry.packages), artifacts, registry.packages, outcome.verified, outcome.newly)
    ensures (forall k :: registry.replies(k).Works?) ==>
              && !outcome.Failed?
              && (outcome.MissingDependency? <==> !ForeignPresent(old(registry.packages), artifacts, |artifacts|, 0))
    ensures Steps(trace, old(registry.packages), artifacts) && trace[|trace| - 1].registry == registry.packages
    ensures outcome.Done? ==>
              exists r: Run :: At(trace, registry.packages, r) && r.phase.Finished? && r.artifacts == artifacts &&
                r.verified == outcome.verified && r.newly == outcome.newly
  {
    ghost var p := registry.packages;
    ghost var run;
    var result;
    result, trace, run := CheckDependencies(registry, artifacts);
    assert registry.packages == AddMissing(p, artifacts, 0) && Reached(p, artifacts, 0);
    if result.NotThere? { return MissingDependency(result.id), trace; }
    if result.NoAnswer? { return Failed, trace; }
    var verified: seq<Published>, newly: seq<Published> := [], [];
    for n := 0 to |artifacts|
      invariant registry.packages == AddMissing(p, artifacts, n) && Reached(p, artifacts, n)
      invariant verified == AllPublished(artifacts[..n]) && newly == Missing(p, artifacts, n)
      invariant Steps(trace, p, artifacts) && At(trace, registry.packages, run)
      invariant run.artifacts == artifacts && run.phase == Asking(n) && run.verified == verified && run.newly == newly
    {
      NextPublished(artifacts, n);
      verified, newly, outcome, trace, run := PublishOne(registry, artifacts, n, verified, newly, p, trace, run);
      if !outcome.Done? { return; }
    }
    assert artifacts[..|artifacts|] == artifacts;
    outcome := Done(verified, newly);
    ghost var before := run;
    run := run.(phase := Finished);
    trace := Extend(trace, p, artifacts, registry.packages, before, run);
  }

  /** The run after one more package that was registered already, or has just been accepted. */
  ghost predicate Moved(run: Run, run': Run, n: nat, verified: seq<Published>, newly: seq<Published>)
  {
    run' == run.(phase := Asking(n + 1), verified := verified, newly := newly)
  }

  /** One round of the second loop: a registered package must match, a missing one is published. */
  method PublishOne(registry: Registry, artifacts: seq<Artifact>, n: nat, verified: seq<Published>, newly: seq<Published>,
                    ghost p: Packages, ghost trace: seq<World>, ghost run: Run)
    returns (verified': seq<Published>, newly': seq<Published>, outcome: Outcome, ghost trace': seq<World>, ghost run': Run)
    requires n < |artifacts| && Steps(trace, p, artifacts) && At(trace, registry.packages, run)
    requires run.artifacts == artifacts && run.phase == Asking(n) && run.verified == verified && run.newly == newly
    requires registry.packages == AddMissing(p, artifacts, n) && Reached(p, artifacts, n)
    modifies registry
    ensures outcome.Done? ==>
              && verified' == verified + [PublishedOf(artifacts[n])]
              && newly' == newly + (if artifacts[n].Id() in old(registry.packages) then [] else [PublishedOf(artifacts[n])])
              && registry.packages == AddMissing(p, artifacts, n + 1) && Reached(p, artifacts, n + 1)
              && Moved(run, run', n, verified', newly')
    ensures outcome.IntegrityMismatch? ==>
              outcome.id == artifacts[n].Id() && Conflict(p, artifacts, n) && registry.packages == old(registry.packages)
    ensures !outcome.MissingDependency? && PartWay(p, artifacts, registry.packages)
    ensures (forall k :: registry.replies(k).Works?) ==> !outcome.Failed?
    ensures Steps(trace', p, artifacts) && At(trace', registry.packages, run')
  {
    var a := artifacts[n];
    verified', newly', trace', run' := verified, newly, trace, run;
    var answer := registry.Existing(a.Id());
    if answer.Unanswerable? || (answer.Found? && answer.id != a.Id()) {
      outcome := Failed;
    } else if answer.Found? && answer.entry.integrity != a.integrity {
      outcome := IntegrityMismatch(a.Id());
    } else if answer.Found? {
      verified' := verified + [PublishedOf(a)];
      run' := run.(phase := Asking(n + 1), verified := verified');
      trace' := Extend(trace, p, artifacts, registry.packages, run, run');
      assert Reached(p, artifacts, n + 1) && registry.packages == AddMissing(p, artifacts, n + 1);
      outcome := Done(verified', newly');
    } else {
      verified', newly', outcome, trace', run' := PublishMissing(registry, artifacts, n, verified, newly, p, trace, run);
    }
  }

  /** A package that the registry does not have. */
  method PublishMissing(registry: Registry, artifacts: seq<Artifact>, n: nat, verified: seq<Published>, newly: seq<Published>,
                        ghost p: Packages, ghost trace: seq<World>, ghost run: Run)
    returns (verified': seq<Published>, newly': seq<Published>, outcome: Outcome, ghost trace': seq<World>, ghost run': Run)
    requires n < |artifacts| && Steps(trace, p, artifacts) && At(trace, registry.packages, run)
    requires run.artifacts == artifacts && run.phase == Asking(n) && run.verified == verified && run.newly == newly
    requires registry.packages == AddMissing(p, artifacts, n) && Reached(p, artifacts, n)
    requires artifacts[n].Id() !in registry.packages
    modifies registry
    ensures outcome.Done? || outcome.Failed?
    ensures outcome.Done? ==>
              && verified' == verified + [PublishedOf(artifacts[n])] && newly' == newly + [PublishedOf(artifacts[n])]
              && registry.packages == AddMissing(p, artifacts, n + 1) && Reached(p, artifacts, n + 1)
              && Moved(run, run', n, verified', newly')
    ensures PartWay(p, artifacts, registry.packages)
    ensures (forall k :: registry.replies(k).Works?) ==> !outcome.Failed?
    ensures Steps(trace', p, artifacts) && At(trace', registry.packages, run')
  {
    var a := artifacts[n];
    ghost var q := registry.packages;
    verified', newly' := verified, newly;
    run' := run.(phase := Publishing(n));
    trace' := Extend(trace, p, artifacts, q, run, run');
    assert Reached(p, artifacts, n + 1);
    var reported := registry.Publish(a);
    if registry.packages != q {
      trace' := ExtendAccepted(trace', p, artifacts, q, run', n);
      run' := run'.(phase := Unanswered(n));
    }
    if reported != Some(a.Id()) { return verified', newly', Failed, trace', run'; }
    ghost var waiting := run';
    verified', newly' := verified + [PublishedOf(a)], newly + [PublishedOf(a)];
    run' := run.(phase := Asking(n + 1), verified := verified', newly := newly');
    trace' := Extend(trace', p, artifacts, registry.packages, waiting, run');
    outcome := Done(verified', newly');
  }

  // ----- Where a run can stop without leaving the registry open

  ghost predicate DistinctIds(artifacts: seq<Artifact>)
  {
    forall i, j | 0 <= i < j < |artifacts| :: artifacts[i].Id() != artifacts[j].Id()
  }

  lemma ConsistentIds(artifacts: seq<Artifact>)
    requires Consistent(artifacts)
    ensures DistinctIds(artifacts)
  {
    forall i, j | 0 <= i < j < |artifacts|
      ensures artifacts[i].Id() != artifacts[j].Id()
    {
      assert artifacts[i].name != artifacts[j].name;
    }
  }

  ghost predicate AmongFirst(artifacts: seq<Artifact>, n: nat, id: Identity)
    requires n <= |artifacts|
  {
    exists i | 0 <= i < n :: artifacts[i].Id() == id
  }

  lemma {:induction false} RegisteredBy(p: Packages, artifacts: seq<Artifact>, n: nat, id: Identity)
    requires n <= |artifacts|
    ensures id in AddMissing(p, artifacts, n) <==> id in p || AmongFirst(artifacts, n, id)
  {
    if n > 0 {
      RegisteredBy(p, artifacts, n - 1, id);
      if AmongFirst(artifacts, n - 1, id) {
        var i :| 0 <= i < n - 1 && artifacts[i].Id() == id;
        assert AmongFirst(artifacts, n, id);
      }
      if AmongFirst(artifacts, n, id) {
        var i :| 0 <= i < n && artifacts[i].Id() == id;
        assert i < n - 1 ==> AmongFirst(artifacts, n - 1, id);
      }
    }
  }

  lemma {:induction false} RegisteredAs(p: Packages, artifacts: seq<Artifact>, n: nat, i: nat)
    requires i < n <= |artifacts| && DistinctIds(artifacts) && artifacts[i].Id() !in p
    ensures artifacts[i].Id() in AddMissing(p, artifacts, n)
    ensures AddMissing(p, artifacts, n)[artifacts[i].Id()] == EntryOf(artifacts[i])
  {
    if i < n - 1 {
      RegisteredAs(p, artifacts, n - 1, i);
      assert artifacts[i].Id() != artifacts[n - 1].Id();
    } else {
      RegisteredBy(p, artifacts, i, artifacts[i].Id());
      assert !AmongFirst(artifacts, i, artifacts[i].Id());
    }
  }

  lemma RegisteredBefore(p: Packages, artifacts: seq<Artifact>, n: nat)
    requires n <= |artifacts|
    ensures Extends(p, AddMissing(p, artifacts, n))
  {
    AddMissingExtends(p, artifacts, 0, n);
  }

  /** A package that the run reaches and publishes needs one that comes later and has to be published too. */
  ghost predicate NeedsLater(p: Packages, artifacts: seq<Artifact>, i: nat, k: nat)
    requires i < |artifacts| && k < |artifacts|
  {
    && i < k && Reached(p, artifacts, i + 1)
    && artifacts[i].Id() !in p && artifacts[k].Id() !in p
    && artifacts[k].Id() in artifacts[i].dependencies
  }

  ghost predicate NothingLater(p: Packages, artifacts: seq<Artifact>)
  {
    forall i, k | 0 <= i < |artifacts| && 0 <= k < |artifacts| :: !NeedsLater(p, artifacts, i, k)
  }

  lemma DependencyInPrefix(p: Packages, artifacts: seq<Artifact>, n: nat, i: nat, d: Identity)
    requires i < n <= |artifacts| && Reached(p, artifacts, n) && Consistent(artifacts) && NothingLater(p, artifacts)
    requires ForeignPresent(p, artifacts, |artifacts|, 0) && artifacts[i].Id() !in p && d in artifacts[i].dependencies
    ensures d in AddMissing(p, artifacts, n)
  {
    var m :| 0 <= m < |artifacts[i].dependencies| && artifacts[i].dependencies[m] == d;
    assert Packaged(artifacts, artifacts[i].dependencies[m].name) || artifacts[i].dependencies[m] in p;
    RegisteredBy(p, artifacts, n, d);
    if Packaged(artifacts, d.name) {
      var k :| 0 <= k < |artifacts| && artifacts[k].name == d.name;
      assert artifacts[k].version == d.version;
      assert artifacts[k].Id() == d && !NeedsLater(p, artifacts, i, k);
      assert k < n ==> AmongFirst(artifacts, n, d);
    }
  }

  /** Whatever is registered already, the registry is closed after every prefix that a run reaches. */
  lemma PrefixClosed(p: Packages, artifacts: seq<Artifact>, n: nat)
    requires n <= |artifacts| && Reached(p, artifacts, n) && Consistent(artifacts) && Closed(p)
    requires ForeignPresent(p, artifacts, |artifacts|, 0) && NothingLater(p, artifacts)
    ensures Closed(AddMissing(p, artifacts, n))
  {
    ConsistentIds(artifacts);
    RegisteredBefore(p, artifacts, n);
    var q := AddMissing(p, artifacts, n);
    forall id, d | id in q && d in q[id].dependencies
      ensures d in q
    {
      if id !in p {
        RegisteredBy(p, artifacts, n, id);
        var i :| 0 <= i < n && artifacts[i].Id() == id;
        RegisteredAs(p, artifacts, n, i);
        DependencyInPrefix(p, artifacts, n, i, d);
      }
    }
  }

  lemma LaterDependencyBreaksClosure(p: Packages, artifacts: seq<Artifact>, i: nat, k: nat)
    requires i < |artifacts| && k < |artifacts| && DistinctIds(artifacts) && NeedsLater(p, artifacts, i, k)
    ensures !Closed(AddMissing(p, artifacts, i + 1))
  {
    RegisteredAs(p, artifacts, i + 1, i);
    RegisteredBy(p, artifacts, i + 1, artifacts[k].Id());
    var q, id := AddMissing(p, artifacts, i + 1), artifacts[i].Id();
    assert !AmongFirst(artifacts, i + 1, artifacts[k].Id());
    assert id in q && artifacts[k].Id() in q[id].dependencies;
  }

  /**
   For a release whose outside dependencies are registered, and any registry, also one that an earlier run has partly
   filled: the registry is closed at every point at which a run can stop exactly when no package that is still missing
   needs a later one that is missing too.
   */
  lemma StopSafeIffNotLater(p: Packages, artifacts: seq<Artifact>)
    requires Consistent(artifacts) && Closed(p) && ForeignPresent(p, artifacts, |artifacts|, 0)
    ensures NothingLater(p, artifacts) <==> forall q | PartWay(p, artifacts, q) :: Closed(q)
  {
    if NothingLater(p, artifacts) {
      forall q | PartWay(p, artifacts, q)
        ensures Closed(q)
      {
        var n: nat :| n <= |artifacts| && Reached(p, artifacts, n) && q == AddMissing(p, artifacts, n);
        PrefixClosed(p, artifacts, n);
      }
    } else {
      var i, k :| 0 <= i < |artifacts| && 0 <= k < |artifacts| && NeedsLater(p, artifacts, i, k);
      ConsistentIds(artifacts);
      LaterDependencyBreaksClosure(p, artifacts, i, k);
      assert PartWay(p, artifacts, AddMissing(p, artifacts, i + 1));
    }
  }

  lemma NewIsReached(artifacts: seq<Artifact>, n: nat)
    requires n <= |artifacts| && DistinctIds(artifacts)
    ensures Reached(map[], artifacts, n)
  {
    forall m | 0 <= m < n
      ensures !Conflict(map[], artifacts, m)
    {
      RegisteredBy(map[], artifacts, m, artifacts[m].Id());
      assert !AmongFirst(artifacts, m, artifacts[m].Id());
    }
  }

  /** Packages in dependency order never need a later one. */
  lemma OrderedIsSafe(p: Packages, artifacts: seq<Artifact>)
    requires Ordered(artifacts)
    ensures NothingLater(p, artifacts)
  {
  }

  const LATE_ORDER: Order := ["wasm", "core"]

  const LATE_DEPENDENCY := Identity("core", "1.0.0")

  const LATE_RELEASE: seq<Artifact> :=
    [Artifact("wasm", "1.0.0", "sha512-w", [LATE_DEPENDENCY]), Artifact("core", "1.0.0", "sha512-c", [])]

  lemma LateReleaseIsOk()
    ensures ManifestOk(LATE_ORDER, LATE_RELEASE)
  {
    assert LATE_ORDER[1..] == ["core"];
    assert "wasm" != "core" by { assert "wasm"[0] != "core"[0]; }
    assert IndexOf(LATE_ORDER, "wasm") == 0 && IndexOf(LATE_ORDER, "core") == 1;
  }

  /** The manifest check by itself does not give that order: it accepts a package that needs a later one. */
  lemma ManifestAloneIsNotEnough()
    ensures ManifestOk(LATE_ORDER, LATE_RELEASE) && !NothingLater(map[], LATE_RELEASE)
    ensures !Closed(AddMissing(map[], LATE_RELEASE, 1))
  {
    LateReleaseIsOk();
    ConsistentIds(LATE_RELEASE);
    NewIsReached(LATE_RELEASE, 1);
    assert LATE_RELEASE[1].Id() == LATE_DEPENDENCY && LATE_DEPENDENCY in LATE_RELEASE[0].dependencies;
    assert NeedsLater(map[], LATE_RELEASE, 0, 1);
    LaterDependencyBreaksClosure(map[], LATE_RELEASE, 0, 1);
  }
}
