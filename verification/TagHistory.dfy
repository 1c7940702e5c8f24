/** Tagging runs after each other, each from a fresh checkout, and each of which may fail or die anywhere. */
module TagHistory {
  import opened Wrappers
  import opened PackageOrder
  import opened PackageTags

  /** A run's packages and commit; the state it starts from is checked out afresh. */
  datatype Run = Run(packages: seq<Identity>, published: seq<Identity>, expected: Commit)

  /** States of the host between runs, each of which may have stopped or died anywhere. */
  ghost predicate History(states: seq<Remote>, runs: seq<Run>, attest: Attest)
  {
    && |states| == |runs| + 1
    && forall i | 0 <= i < |runs| :: RanTo(states[i], runs[i], states[i + 1], attest)
  }

  ghost predicate RanTo(before: Remote, run: Run, after: Remote, attest: Attest)
  {
    Grown(before, after, run.packages, attest, run.published, run.expected)
  }

  lemma GrownPrefix(before: Remote, after: Remote, run: Run, n: nat, attest: Attest)
    requires n <= |run.packages| && Grown(before, after, run.packages[..n], attest, run.published, run.expected)
    ensures RanTo(before, run, after, attest)
  {
    forall t, c | Attested(t, c, run.packages[..n], attest, run.published, run.expected)
      ensures Attested(t, c, run.packages, attest, run.published, run.expected)
    {
    }
  }

  /** No tag is ever moved or removed, and no release changed, by any number of runs. */
  lemma {:induction false} NothingMoves(states: seq<Remote>, runs: seq<Run>, attest: Attest, i: nat, n: nat)
    requires History(states, runs, attest) && i <= n <= |runs|
    ensures Kept(states[i], states[n])
  {
    if i < n {
      NothingMoves(states, runs, attest, i, n - 1);
      assert RanTo(states[n - 1], runs[n - 1], states[n], attest);
    }
  }

  /** Every tag that was not there at first names the attested commit of a package with that tag. */
  lemma {:induction false} TagsAreAttested(states: seq<Remote>, runs: seq<Run>, attest: Attest, n: nat, t: string)
    requires History(states, runs, attest) && n <= |runs| && t in states[n].tags && t !in states[0].tags
    ensures exists i | 0 <= i < n :: Attested(t, states[n].tags[t], runs[i].packages, attest, runs[i].published, runs[i].expected)
  {
    assert RanTo(states[n - 1], runs[n - 1], states[n], attest);
    if t in states[n - 1].tags {
      TagsAreAttested(states, runs, attest, n - 1, t);
    }
  }

  /** Versions are numbers and dots, so a tag tells name and version. */
  predicate PlainVersion(p: Identity)
  {
    '@' !in p.version
  }

  lemma TagIdentifies(p: Identity, q: Identity)
    requires PlainVersion(p) && PlainVersion(q) && Tag(p) == Tag(q)
    ensures p == q
  {
    var t, m, n := Tag(p), |p.name|, |q.name|;
    assert t[m] == '@' && t[n] == '@';
    forall k | m < k < |t| ensures t[k] != '@' { assert t[k] == p.version[k - m - 1]; }
    forall k | n < k < |t| ensures t[k] != '@' { assert t[k] == q.version[k - n - 1]; }
    assert t[..m] == p.name && t[..n] == q.name && t[m + 1..] == p.version && t[n + 1..] == q.version;
  }

  lemma RunKeepsFit(before: Remote, run: Run, after: Remote, attest: Attest, p: Identity, mustBe: Option<Commit>)
    requires RanTo(before, run, after, attest) && PlainVersion(p) && forall q | q in run.packages :: PlainVersion(q)
    requires Fit(before, p, attest(p), mustBe)
    ensures Fit(after, p, attest(p), mustBe)
  {
    var t := Tag(p);
    if t in after.tags && t !in before.tags {
      var q :| q in run.packages && IsAttested(q, t, after.tags[t], attest, run.published, run.expected);
      TagIdentifies(p, q);
    }
  }

  /** A package that was fit at first stays fit through every run, complete or cut short. */
  lemma {:induction false} RestartsStayFit(states: seq<Remote>, runs: seq<Run>, attest: Attest, n: nat, p: Identity, mustBe: Option<Commit>)
    requires History(states, runs, attest) && n <= |runs| && PlainVersion(p)
    requires forall i | 0 <= i < |runs| :: forall q | q in runs[i].packages :: PlainVersion(q)
    requires Fit(states[0], p, attest(p), mustBe)
    ensures Fit(states[n], p, attest(p), mustBe)
  {
    if n > 0 {
      RestartsStayFit(states, runs, attest, n - 1, p, mustBe);
      assert RanTo(states[n - 1], runs[n - 1], states[n], attest);
      RunKeepsFit(states[n - 1], runs[n - 1], states[n], attest, p, mustBe);
    }
  }

  // ----- Runs as they are performed

  function MustBeIn(run: Run, p: Identity): Option<Commit>
  {
    MustBe(p, run.published, run.expected)
  }

  /** What the outcome of one run says of the states before and after it. */
  ghost predicate Told(before: Remote, run: Run, after: Remote, attest: Attest, works: bool, outcome: Outcome)
  {
    && (outcome.Rejected? <==> !Permitted(run.packages, run.published, run.expected))
    && (outcome.Rejected? ==> after == before)
    && (outcome.Done? ==> FirstComplete(after, run.packages, |run.packages|, attest))
    && (works && !outcome.Rejected? ==>
          (outcome.Done? <==> FirstFit(before, run.packages, |run.packages|, attest, run.published, run.expected)))
  }

  ghost predicate AllWork(replies: nat -> Reply)
  {
    forall k :: replies(k).Works?
  }

  /** One run on a fresh checkout. */
  method Perform(remote: Remote, run: Run, replies: nat -> Reply, attest: Attest) returns (after: Remote, outcome: Outcome)
    requires DistinctTags(run.packages)
    ensures RanTo(remote, run, after, attest) && Told(remote, run, after, attest, AllWork(replies), outcome)
  {
    var host := new Host(remote, replies);
    outcome := host.EnsurePackageReleases(run.packages, run.published, run.expected, attest);
    after := host.View();
    GrownPrefix(remote, after, run, Reached(run.packages, outcome), attest);
  }

  /** Every run's outcome tells the truth about the states around it. */
  ghost predicate AllTold(states: seq<Remote>, runs: seq<Run>, replies: seq<nat -> Reply>, attest: Attest, outcomes: seq<Outcome>)
  {
    && |states| == |runs| + 1 && |replies| == |runs| == |outcomes|
    && forall i | 0 <= i < |runs| :: Told(states[i], runs[i], states[i + 1], attest, AllWork(replies[i]), outcomes[i])
  }

  /** The tag was made by one of the runs, at the commit that the provenance of one of its packages names. */
  ghost predicate MadeByRun(runs: seq<Run>, attest: Attest, t: string, c: Commit)
  {
    exists i | 0 <= i < |runs| :: Attested(t, c, runs[i].packages, attest, runs[i].published, runs[i].expected)
  }

  /** All packages of a run can be completed, and versions are plain everywhere. */
  ghost predicate Completable(remote: Remote, runs: seq<Run>, attest: Attest)
    requires runs != []
  {
    var last := runs[|runs| - 1];
    && Permitted(last.packages, last.published, last.expected)
    && FirstFit(remote, last.packages, |last.packages|, attest, last.published, last.expected)
    && forall i | 0 <= i < |runs| :: forall q | q in runs[i].packages :: PlainVersion(q)
  }

  /**
   Any runs one after the other. No tag is moved or removed and no release changed; every new tag was attested; and if
   the last run's packages could be completed at first, and its commands all work, it completes them, whatever happened
   to the runs before it.
   */
  method PerformRuns(remote: Remote, runs: seq<Run>, replies: seq<nat -> Reply>, attest: Attest)
    returns (states: seq<Remote>, outcomes: seq<Outcome>)
    requires |replies| == |runs| && forall i | 0 <= i < |runs| :: DistinctTags(runs[i].packages)
    ensures History(states, runs, attest) && states[0] == remote && AllTold(states, runs, replies, attest, outcomes)
    ensures forall i, n | 0 <= i <= n <= |runs| :: Kept(states[i], states[n])
    ensures forall t | t in states[|runs|].tags && t !in remote.tags :: MadeByRun(runs, attest, t, states[|runs|].tags[t])
    ensures runs != [] && AllWork(replies[|runs| - 1]) && Completable(remote, runs, attest) ==>
              var last := runs[|runs| - 1];
              outcomes[|runs| - 1].Done? && FirstComplete(states[|runs|], last.packages, |last.packages|, attest)
  {
    states, outcomes := [remote], [];
    for n := 0 to |runs|
      invariant |states| == n + 1 && |outcomes| == n && states[0] == remote
      invariant forall i | 0 <= i < n :: RanTo(states[i], runs[i], states[i + 1], attest)
      invariant forall i | 0 <= i < n :: Told(states[i], runs[i], states[i + 1], attest, AllWork(replies[i]), outcomes[i])
    {
      var after, outcome := Perform(states[n], runs[n], replies[n], attest);
      states, outcomes := states + [after], outcomes + [outcome];
    }
    forall i, n | 0 <= i <= n <= |runs| ensures Kept(states[i], states[n]) { NothingMoves(states, runs, attest, i, n); }
    forall t | t in states[|runs|].tags && t !in remote.tags
      ensures MadeByRun(runs, attest, t, states[|runs|].tags[t])
    {
      TagsAreAttested(states, runs, attest, |runs|, t);
    }
    if runs != [] && Completable(remote, runs, attest) { LastRunIsFit(states, runs, attest); }
  }

  lemma LastRunIsFit(states: seq<Remote>, runs: seq<Run>, attest: Attest)
    requires runs != [] && History(states, runs, attest) && Completable(states[0], runs, attest)
    ensures var last := runs[|runs| - 1];
            FirstFit(states[|runs| - 1], last.packages, |last.packages|, attest, last.published, last.expected)
  {
    var last := runs[|runs| - 1];
    forall j | 0 <= j < |last.packages|
      ensures Fit(states[|runs| - 1], last.packages[j], attest(last.packages[j]), MustBeIn(last, last.packages[j]))
    {
      var p := last.packages[j];
      assert p in runs[|runs| - 1].packages;
      assert Fit(states[0], p, attest(p), MustBeIn(last, p));
      RestartsStayFit(states, runs, attest, |runs| - 1, p, MustBeIn(last, p));
    }
  }
}
