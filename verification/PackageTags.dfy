/** Tagging verified packages and creating their releases, with commands that may fail or be cut short. */
module PackageTags {
  import opened Wrappers
  import opened PackageOrder

  type Commit = string

  function Tag(p: Identity): string
  {
    p.name + "@" + p.version
  }

  predicate IsSha(s: Commit)
  {
    |s| == 40 && forall c | c in s :: '0' <= c <= '9' || 'a' <= c <= 'f'
  }

  datatype Release = Release(tagName: string, draft: bool, prerelease: bool)

  /** What is stored at the host: it outlives every run. */
  datatype Remote = Remote(tags: map<string, Commit>, releases: map<string, Release>)

  /** How a command goes: it can also fail, or the whole run die, with its effect done or not. */
  datatype Reply = Works | Fails(applied: bool) | Dies(applied: bool)

  /** What the run sees of a command; after death, nothing. */
  datatype Exit = Zero | Nonzero | Dead

  function Seen(reply: Reply, possible: bool): Exit
  {
    match reply
    case Works => if possible then Zero else Nonzero
    case Fails(_) => Nonzero
    case Dies(_) => Dead
  }

  predicate Applied(reply: Reply)
  {
    match reply
    case Works => true
    case Fails(applied) => applied
    case Dies(applied) => applied
  }

  predicate Public(release: Release, tag: string)
  {
    release.tagName == tag && !release.draft && !release.prerelease
  }

  class Host {
    var tags: map<string, Commit>
    var releases: map<string, Release>
    /** The tags of the checkout that the run works in. */
    var local: map<string, Commit>
    const replies: nat -> Reply
    var commands: nat

    function View(): Remote
      reads this
    {
      Remote(tags, releases)
    }

    /** The checkout knows no tag that the host does not have. */
    ghost predicate Synced()
      reads this
    {
      local == tags
    }

    constructor (remote: Remote, replies: nat -> Reply)
      ensures View() == remote && Synced() && this.replies == replies && commands == 0
    {
      tags, releases, local, this.replies, commands := remote.tags, remote.releases, remote.tags, replies, 0;
    }

    method RevParse(tag: string) returns (exit: Exit, commit: Commit)
      modifies this`commands
      ensures commands == old(commands) + 1
      ensures exit == Seen(replies(old(commands)), tag in local)
      ensures exit.Zero? ==> tag in local && commit == local[tag]
    {
      exit := Seen(replies(commands), tag in local);
      commit := if tag in local then local[tag] else "";
      commands := commands + 1;
    }

    method GitTag(tag: string, commit: Commit) returns (exit: Exit)
      modifies this`local, this`commands
      ensures commands == old(commands) + 1
      ensures exit == Seen(replies(old(commands)), tag !in old(local))
      ensures local == if tag !in old(local) && Applied(replies(old(commands))) then old(local)[tag := commit] else old(local)
    {
      exit := Seen(replies(commands), tag !in local);
      if tag !in local && Applied(replies(commands)) { local := local[tag := commit]; }
      commands := commands + 1;
    }

    /** A tag that the host has for another commit is not moved. */
    method GitPush(tag: string) returns (exit: Exit)
      requires tag in local
      modifies this`tags, this`commands
      ensures commands == old(commands) + 1
      ensures var possible := tag !in old(tags) || old(tags)[tag] == local[tag];
              && exit == Seen(replies(old(commands)), possible)
              && tags == if possible && Applied(replies(old(commands))) then old(tags)[tag := local[tag]] else old(tags)
    {
      var possible := tag !in tags || tags[tag] == local[tag];
      exit := Seen(replies(commands), possible);
      if possible && Applied(replies(commands)) { tags := tags[tag := local[tag]]; }
      commands := commands + 1;
    }

    method ReleaseView(tag: string) returns (exit: Exit, release: Release)
      modifies this`commands
      ensures commands == old(commands) + 1
      ensures exit == Seen(replies(old(commands)), tag in releases)
      ensures exit.Zero? ==> tag in releases && release == releases[tag]
    {
      exit := Seen(replies(commands), tag in releases);
      release := if tag in releases then releases[tag] else Release("", false, false);
      commands := commands + 1;
    }

    /** Only for a tag that the host has, and only when there is no release of that tag. Nobody asks for a draft. */
    method ReleaseCreate(tag: string) returns (exit: Exit)
      modifies this`releases, this`commands
      ensures commands == old(commands) + 1
      ensures var possible := tag in tags && tag !in old(releases);
              && exit == Seen(replies(old(commands)), possible)
              && releases == if possible && Applied(replies(old(commands)))
                             then old(releases)[tag := Release(tag, false, false)] else old(releases)
    {
      var possible := tag in tags && tag !in releases;
      exit := Seen(replies(commands), possible);
      if possible && Applied(replies(commands)) { releases := releases[tag := Release(tag, false, false)]; }
      commands := commands + 1;
    }

    /**
     One package. The result says whether the run goes on. A tag that is only in the checkout, left there by a run
     that died before its push, is never pushed: the package then stays without tag and release.
     */
    method EnsureOne(p: Identity, attested: Option<Commit>, mustBe: Option<Commit>) returns (finished: bool)
      modifies this
      ensures old(Synced()) ==> Touched(old(View()), View(), p, attested, mustBe)
      ensures old(Synced()) && finished ==> Synced() && Complete(View(), p, attested)
      ensures old(Synced()) && (forall k :: replies(k).Works?) ==> (finished <==> Fit(old(View()), p, attested, mustBe))
      ensures Tag(p) in old(local) && Tag(p) !in old(tags) && Tag(p) !in old(releases) ==> !finished && View() == old(View())
    {
      var tag := Tag(p);
      if attested.None? || !IsSha(attested.value) { return false; }
      if mustBe.Some? && attested.value != mustBe.value { return false; }
      var exit, commit := RevParse(tag);
      if exit.Dead? { return false; }
      if exit.Zero? {
        if commit != attested.value { return false; }
      } else {
        exit := GitTag(tag, attested.value);
        if !exit.Zero? { return false; }
        exit := GitPush(tag);
        if !exit.Zero? { return false; }
      }
      finished := EnsureRelease(tag);
    }

    method EnsureRelease(tag: string) returns (finished: bool)
      modifies this`releases, this`commands
      ensures releases == old(releases) ||
              (tag in tags && tag !in old(releases) && releases == old(releases)[tag := Release(tag, false, false)])
      ensures finished ==> tag in releases && releases[tag].tagName == tag && !releases[tag].draft && !releases[tag].prerelease
      ensures finished && tag !in old(releases) ==> tag in tags
      ensures (forall k :: replies(k).Works?) && tag in tags ==>
                (finished <==> tag in old(releases) ==>
                                 old(releases)[tag].tagName == tag && !old(releases)[tag].draft && !old(releases)[tag].prerelease)
    {
      var exit, release := ReleaseView(tag);
      if exit.Dead? { return false; }
      if exit.Zero? { return release.tagName == tag && !release.draft && !release.prerelease; }
      exit := ReleaseCreate(tag);
      return exit.Zero?;
    }

    static method AllVerified(packages: seq<Identity>, published: seq<Identity>) returns (all: bool)
      ensures all <==> forall p | p in published :: HasTag(packages, Tag(p))
    {
      for i := 0 to |published|
        invariant forall j | 0 <= j < i :: HasTag(packages, Tag(published[j]))
      {
        if !HasTag(packages, Tag(published[i])) { return false; }
      }
      all := true;
    }

    /** All packages in order. A package that fails stops the run before the later ones. */
    method EnsurePackageReleases(packages: seq<Identity>, published: seq<Identity>, expected: Commit, attest: Attest)
      returns (outcome: Outcome)
      requires Synced() && DistinctTags(packages)
      modifies this
      ensures outcome.Rejected? <==> !Permitted(packages, published, expected)
      ensures outcome.Rejected? ==> View() == old(View())
      ensures outcome.Stopped? ==> outcome.at < |packages|
      ensures Grown(old(View()), View(), packages[..Reached(packages, outcome)], attest, published, expected)
      ensures FirstComplete(View(), packages, Finished(packages, outcome), attest)
      ensures (forall k :: replies(k).Works?) && !outcome.Rejected? ==>
                (outcome.Done? <==> FirstFit(old(View()), packages, |packages|, attest, published, expected))
      ensures outcome.Done? ==> forall p | p in packages :: IsOut(View(), p.name + "@" + p.version, attest(p))
      ensures forall t | t in releases && t !in old(releases) ::
                releases[t].tagName == t && !releases[t].draft && !releases[t].prerelease
    {
      if !IsSha(expected) { return Rejected; }
      var verified := AllVerified(packages, published);
      if !verified { return Rejected; }
      outcome := EnsureAll(packages, published, expected, attest);
      forall p | p in packages { CompleteMeans(View(), p, attest(p)); }
    }

    method EnsureAll(packages: seq<Identity>, published: seq<Identity>, expected: Commit, attest: Attest)
      returns (outcome: Outcome)
      requires Synced() && DistinctTags(packages)
      modifies this
      ensures !outcome.Rejected? && (outcome.Stopped? ==> outcome.at < |packages|)
      ensures Grown(old(View()), View(), packages[..Reached(packages, outcome)], attest, published, expected)
      ensures FirstComplete(View(), packages, Finished(packages, outcome), attest)
      ensures (forall k :: replies(k).Works?) ==>
                (outcome.Done? <==> FirstFit(old(View()), packages, |packages|, attest, published, expected))
    {
      ghost var before := View();
      for i := 0 to |packages|
        invariant Synced() && Grown(before, View(), packages[..i], attest, published, expected)
        invariant FirstComplete(View(), packages, i, attest)
        invariant (forall k :: replies(k).Works?) ==> FirstFit(before, packages, i, attest, published, expected)
      {
        ghost var r := View();
        var finished := EnsureOne(packages[i], attest(packages[i]), MustBe(packages[i], published, expected));
        GrownNext(before, r, View(), packages, i, attest, published, expected);
        CompleteNext(r, View(), packages, i, attest, published, expected);
        FitNext(before, r, packages, i, attest, published, expected);
        if !finished {
          return Stopped(i);
        }
      }
      assert packages[..|packages|] == packages;
      outcome := Done;
    }
  }

  /** The commit is a full one, and everything published was verified. */
  ghost predicate Permitted(packages: seq<Identity>, published: seq<Identity>, expected: Commit)
  {
    IsSha(expected) && forall p | p in published :: HasTag(packages, Tag(p))
  }

  // ----- The same in plain fields

  predicate FullSha(s: Commit)
  {
    |s| == 40 && forall i | 0 <= i < 40 :: s[i] in "0123456789abcdef"
  }

  lemma ShaMeans(s: Commit)
    ensures IsSha(s) <==> FullSha(s)
  {
    assert forall i | 0 <= i < |s| :: s[i] in s;
    forall c: char
      ensures '0' <= c <= '9' || 'a' <= c <= 'f' <==> c in "0123456789abcdef"
    {
    }
  }

  /** The host has the tag, for the commit that the provenance names, and a public release of that tag. */
  ghost predicate IsOut(r: Remote, tag: string, attested: Option<Commit>)
  {
    && tag in r.tags && attested == Some(r.tags[tag])
    && tag in r.releases && r.releases[tag].tagName == tag && !r.releases[tag].draft && !r.releases[tag].prerelease
  }

  lemma CompleteMeans(r: Remote, p: Identity, attested: Option<Commit>)
    ensures Complete(r, p, attested) <==>
            IsOut(r, p.name + "@" + p.version, attested) && FullSha(attested.value)
  {
    if attested.Some? { ShaMeans(attested.value); }
  }

  /**
   A package can be completed exactly when its provenance names a full commit, the workflow's own if it has just been
   published; a tag that is there names this commit; and a release that is there is of that tag, no draft and no prerelease.
   */
  lemma FitMeans(r: Remote, p: Identity, attested: Option<Commit>, published: seq<Identity>, expected: Commit)
    ensures var tag := p.name + "@" + p.version;
            Fit(r, p, attested, MustBe(p, published, expected)) <==>
              && attested.Some? && FullSha(attested.value)
              && ((exists q | q in published :: q.name + "@" + q.version == tag) ==> attested.value == expected)
              && (tag in r.tags ==> r.tags[tag] == attested.value)
              && (tag in r.releases ==> r.releases[tag].tagName == tag && !r.releases[tag].draft && !r.releases[tag].prerelease)
  {
    if attested.Some? { ShaMeans(attested.value); }
    if exists q | q in published :: q.name + "@" + q.version == Tag(p) {
      var q :| q in published && q.name + "@" + q.version == Tag(p);
      assert Tag(q) == Tag(p);
    }
  }

  /** A run is permitted exactly when its commit is a full one, and what it published is among what was verified. */
  lemma PermittedMeans(packages: seq<Identity>, published: seq<Identity>, expected: Commit)
    ensures Permitted(packages, published, expected) <==>
            && FullSha(expected)
            && forall p | p in published :: exists q | q in packages :: q.name + "@" + q.version == p.name + "@" + p.version
  {
    ShaMeans(expected);
    forall p | p in published
      ensures HasTag(packages, Tag(p)) <==> exists q | q in packages :: q.name + "@" + q.version == p.name + "@" + p.version
    {
      if exists q | q in packages :: q.name + "@" + q.version == p.name + "@" + p.version {
        var q :| q in packages && q.name + "@" + q.version == p.name + "@" + p.version;
        assert Tag(q) == Tag(p);
      }
    }
  }

  // ----- What one package may change

  ghost predicate Complete(r: Remote, p: Identity, attested: Option<Commit>)
  {
    && attested.Some? && IsSha(attested.value)
    && Tag(p) in r.tags && r.tags[Tag(p)] == attested.value
    && Tag(p) in r.releases && Public(r.releases[Tag(p)], Tag(p))
  }

  /** Nothing stands in the way of completing a package. */
  ghost predicate Fit(r: Remote, p: Identity, attested: Option<Commit>, mustBe: Option<Commit>)
  {
    && Trusted(attested, mustBe)
    && (Tag(p) in r.tags ==> r.tags[Tag(p)] == attested.value)
    && (Tag(p) in r.releases ==> Public(r.releases[Tag(p)], Tag(p)))
  }

  ghost predicate Trusted(attested: Option<Commit>, mustBe: Option<Commit>)
  {
    attested.Some? && IsSha(attested.value) && (mustBe.Some? ==> attested == mustBe)
  }

  /** Only the package's own tag and release can be new, and a new tag names the attested commit. */
  ghost predicate Touched(before: Remote, after: Remote, p: Identity, attested: Option<Commit>, mustBe: Option<Commit>)
  {
    && (after.tags == before.tags ||
        (Trusted(attested, mustBe) && Tag(p) !in before.tags && after.tags == before.tags[Tag(p) := attested.value]))
    && (after.releases == before.releases ||
        (&& Trusted(attested, mustBe) && Tag(p) in after.tags && after.tags[Tag(p)] == attested.value
         && Tag(p) !in before.releases && after.releases == before.releases[Tag(p) := Release(Tag(p), false, false)]))
  }

  // ----- What a run may change

  /** What the provenance of a published version says; it never changes. */
  type Attest = Identity -> Option<Commit>

  datatype Outcome = Rejected | Done | Stopped(at: nat)

  predicate HasTag(packages: seq<Identity>, tag: string)
  {
    exists p | p in packages :: Tag(p) == tag
  }

  ghost predicate DistinctTags(packages: seq<Identity>)
  {
    forall i, j | 0 <= i < j < |packages| :: Tag(packages[i]) != Tag(packages[j])
  }

  /** Packages published by this workflow must come from its own commit. */
  function MustBe(p: Identity, published: seq<Identity>, expected: Commit): Option<Commit>
  {
    if HasTag(published, Tag(p)) then Some(expected) else None
  }

  /** How many packages the run has looked at, and how many it has finished. */
  function Reached(packages: seq<Identity>, outcome: Outcome): (n: nat)
    ensures n <= |packages|
  {
    match outcome
    case Rejected => 0
    case Done => |packages|
    case Stopped(at) => if at < |packages| then at + 1 else |packages|
  }

  function Finished(packages: seq<Identity>, outcome: Outcome): (n: nat)
    ensures n <= |packages|
  {
    match outcome
    case Rejected => 0
    case Done => |packages|
    case Stopped(at) => if at < |packages| then at else |packages|
  }

  /** The tag belongs to one of the packages, and names the commit that its provenance says. */
  ghost predicate Attested(tag: string, commit: Commit, packages: seq<Identity>, attest: Attest, published: seq<Identity>, expected: Commit)
  {
    exists p | p in packages :: IsAttested(p, tag, commit, attest, published, expected)
  }

  predicate IsAttested(p: Identity, tag: string, commit: Commit, attest: Attest, published: seq<Identity>, expected: Commit)
  {
    && Tag(p) == tag && attest(p) == Some(commit) && IsSha(commit)
    && (MustBe(p, published, expected).Some? ==> commit == expected)
  }

  ghost predicate Kept(before: Remote, after: Remote)
  {
    && (forall t | t in before.tags :: t in after.tags && after.tags[t] == before.tags[t])
    && (forall t | t in before.releases :: t in after.releases && after.releases[t] == before.releases[t])
  }

  /** Nothing is moved or removed; what is new are attested tags, and public releases of such tags. */
  ghost predicate Grown(before: Remote, after: Remote, packages: seq<Identity>, attest: Attest, published: seq<Identity>, expected: Commit)
  {
    && Kept(before, after)
    && (forall t | t in after.tags && t !in before.tags :: Attested(t, after.tags[t], packages, attest, published, expected))
    && (forall t | t in after.releases && t !in before.releases ::
          Public(after.releases[t], t) && t in after.tags && Attested(t, after.tags[t], packages, attest, published, expected))
  }

  lemma AttestedMore(t: string, c: Commit, packages: seq<Identity>, i: nat, attest: Attest, published: seq<Identity>, expected: Commit)
    requires i < |packages| && Attested(t, c, packages[..i], attest, published, expected)
    ensures Attested(t, c, packages[..i + 1], attest, published, expected)
  {
    assert packages[..i + 1] == packages[..i] + [packages[i]];
  }

  lemma GrownNext(before: Remote, r: Remote, after: Remote, packages: seq<Identity>, i: nat,
                  attest: Attest, published: seq<Identity>, expected: Commit)
    requires i < |packages| && Grown(before, r, packages[..i], attest, published, expected)
    requires Touched(r, after, packages[i], attest(packages[i]), MustBe(packages[i], published, expected))
    ensures Grown(before, after, packages[..i + 1], attest, published, expected)
  {
    var p := packages[i];
    assert packages[..i + 1][i] == p && p in packages[..i + 1];
    forall t | t in after.tags && t !in before.tags
      ensures Attested(t, after.tags[t], packages[..i + 1], attest, published, expected)
    {
      if t in r.tags {
        AttestedMore(t, r.tags[t], packages, i, attest, published, expected);
      } else {
        assert IsAttested(p, t, after.tags[t], attest, published, expected);
      }
    }
    forall t | t in after.releases && t !in before.releases
      ensures Public(after.releases[t], t) && t in after.tags
      ensures Attested(t, after.tags[t], packages[..i + 1], attest, published, expected)
    {
      if t in r.releases {
        AttestedMore(t, r.tags[t], packages, i, attest, published, expected);
      } else {
        assert IsAttested(p, t, after.tags[t], attest, published, expected);
      }
    }
  }

  ghost predicate FirstComplete(r: Remote, packages: seq<Identity>, n: nat, attest: Attest)
    requires n <= |packages|
  {
    forall j | 0 <= j < n :: Complete(r, packages[j], attest(packages[j]))
  }

  lemma CompleteNext(r: Remote, after: Remote, packages: seq<Identity>, i: nat, attest: Attest, published: seq<Identity>, expected: Commit)
    requires i < |packages| && Touched(r, after, packages[i], attest(packages[i]), MustBe(packages[i], published, expected))
    requires FirstComplete(r, packages, i, attest)
    ensures FirstComplete(after, packages, i, attest)
  {
  }

  /** The first packages were fit for the run when it started. */
  ghost predicate FirstFit(before: Remote, packages: seq<Identity>, i: nat, attest: Attest, published: seq<Identity>, expected: Commit)
    requires i <= |packages|
  {
    forall j | 0 <= j < i :: Fit(before, packages[j], attest(packages[j]), MustBe(packages[j], published, expected))
  }

  /** Earlier packages do not change whether a later one is fit. */
  lemma FitNext(before: Remote, r: Remote, packages: seq<Identity>, i: nat, attest: Attest, published: seq<Identity>, expected: Commit)
    requires i < |packages| && DistinctTags(packages) && Grown(before, r, packages[..i], attest, published, expected)
    ensures var p := packages[i];
            Fit(before, p, attest(p), MustBe(p, published, expected)) <==> Fit(r, p, attest(p), MustBe(p, published, expected))
  {
    var t := Tag(packages[i]);
    forall q | q in packages[..i]
      ensures Tag(q) != t
    {
      var j :| 0 <= j < i && packages[j] == q;
    }
    assert forall c :: !Attested(t, c, packages[..i], attest, published, expected);
  }
}
