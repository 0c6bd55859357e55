/** What a verdict of the guard tells: soundness, completeness and the exemption. */
module GuardTheorems {
  import opened CommitGraph
  import opened RefNames
  import opened GuardSpec
  import opened GuardLaws

  /** What `roots` add on top of `bases`, by ancestry alone. */
  ghost function Above(g: Store, roots: set<Hash>, bases: set<Hash>): set<Hash> {
    Reach(g, roots, {}) - Reach(g, bases, {})
  }

  /** The rule in one line: the ref holds some of the branch's own commits, not
      all of them, and not only ones the branch has already pushed. */
  ghost predicate Incriminates(g: Store, bases: set<Hash>, tip: Hash, pushed: set<Hash>, ref: Hash) {
    var own := Above(g, {tip}, bases);
    var shared := Above(g, {ref}, bases) * own;
    shared != {} && shared < own && !(shared <= Above(g, pushed, bases))
  }

  /** Stopping the walk at the base set is subtracting the bases' ancestors. */
  lemma WalkIsDifference(g: Store, bases: set<Hash>, roots: set<Hash>)
    requires Complete(g, bases, {})
    ensures Reach(g, roots, Reach(g, bases, {})) == Above(g, roots, bases)
  {
    ReachIsParentClosed(g, bases);
    forall h: Hash { ReachAvoiding(g, roots, Reach(g, bases, {}), h); }
  }

  lemma SubsetCardinality<T>(a: set<T>, b: set<T>)
    requires a <= b
    ensures |a| < |b| <==> a < b
    ensures 0 < |a| <==> a != {}
  {
    assert b == a + (b - a);
    assert |b| == |a| + |b - a|;
  }

  lemma AccusedIsIncriminating(repo: Repo, opts: Options, c: Candidate)
    requires Judgeable(repo, opts)
    ensures var (name, tip) := ResolveBranch(repo, opts.branch).value;
            && var bases := BaseTips(repo, opts.bases);
            && Shared(CaseOf(repo, opts), c) == Above(repo.commits, {c.hash}, bases) * Above(repo.commits, {tip}, bases)
            && (Accused(CaseOf(repo, opts), c) <==>
                Incriminates(repo.commits, bases, tip,
                             PushedTips(repo, name, IsLocalBranch(repo, opts.branch)), c.hash))
  {
    hide Reach, Complete, BaseTips, PushedTips, IsLocalBranch, IsCandidate;
    var (name, tip) := ResolveBranch(repo, opts.branch).value;
    var bases := BaseTips(repo, opts.bases);
    WalkIsDifference(repo.commits, bases, {c.hash});
    WalkIsDifference(repo.commits, bases, {tip});
    WalkIsDifference(repo.commits, bases, PushedTips(repo, name, IsLocalBranch(repo, opts.branch)));
    SubsetCardinality(Shared(CaseOf(repo, opts), c), CaseOf(repo, opts).own);
  }

  lemma {:induction false} SharingLists(k: Case, cs: seq<Candidate>, s: set<Hash>, d: string)
    ensures d in Sharing(k, cs, s) <==> exists c | c in cs :: Accused(k, c) && Shared(k, c) == s && c.display == d
  {
    if cs != [] {
      SharingLists(k, cs[..|cs| - 1], s, d);
      assert cs == cs[..|cs| - 1] + [cs[|cs| - 1]];
    }
  }

  /** The group a ref is reported in: the one whose commits are those it shares. */
  ghost predicate ReportedIn(res: Result, sets: seq<set<Hash>>, shared: set<Hash>, display: string, i: int) {
    0 <= i < |sets| && i < |res.inherited| && sets[i] == shared && display in res.inherited[i].refs
  }

  /** Soundness and completeness: a ref is reported, in the group of exactly the
      commits it shares, if and only if it incriminates the branch. */
  lemma ReportedIffIncriminating(repo: Repo, opts: Options, cs: seq<Candidate>, sets: seq<set<Hash>>, res: Result,
                                 r: Ref)
    requires Judgeable(repo, opts) && Verdict(repo, opts, cs, sets, res)
    requires r in repo.refs && IsCandidate(r, Excluded(repo, opts, res.branch))
    ensures var (name, tip) := ResolveBranch(repo, opts.branch).value;
            && var bases := BaseTips(repo, opts.bases);
            && var shared := Above(repo.commits, {r.hash}, bases) * Above(repo.commits, {tip}, bases);
            && (Incriminates(repo.commits, bases, tip,
                             PushedTips(repo, name, IsLocalBranch(repo, opts.branch)), r.hash) <==>
                exists i :: ReportedIn(res, sets, shared, DisplayRefName(r.name), i))
  {
    hide Incriminates, Above, Judgeable, Shared, CaseOf, IsCandidate, Excluded;
    var k, c := CaseOf(repo, opts), AsCandidate(r);
    AccusedIsIncriminating(repo, opts, c);
    if k.own != {} {
      assert c in cs;
      if Accused(k, c) {
        var i :| 0 <= i < |sets| && sets[i] == Shared(k, c);
        assert IsGroup(k, cs, sets[i], res.inherited[i]);
        SharingLists(k, cs, sets[i], c.display);
        assert ReportedIn(res, sets, Shared(k, c), c.display, i);
      }
    }
    if i :| ReportedIn(res, sets, Shared(k, c), c.display, i) {
      assert IsGroup(k, cs, sets[i], res.inherited[i]);
      SharingLists(k, cs, sets[i], c.display);
      var other :| other in cs && Accused(k, other) && Shared(k, other) == sets[i];
    }
  }

  /** Every ref is in at most one group, since groups have distinct commit sets,
      and every name in a group belongs to an accused ref with that set. */
  lemma GroupsPartitionTheAccused(repo: Repo, opts: Options, cs: seq<Candidate>, sets: seq<set<Hash>>, res: Result,
                                  i: int, d: string)
    requires Judgeable(repo, opts) && Verdict(repo, opts, cs, sets, res)
    requires 0 <= i < |res.inherited| && d in res.inherited[i].refs
    ensures |sets| == |res.inherited| && forall j | 0 <= j < |sets| && sets[j] == sets[i] :: j == i
    ensures var (name, tip) := ResolveBranch(repo, opts.branch).value;
            && var bases := BaseTips(repo, opts.bases);
            exists c | c in cs ::
              && c.display == d
              && sets[i] == Above(repo.commits, {c.hash}, bases) * Above(repo.commits, {tip}, bases)
              && Incriminates(repo.commits, bases, tip,
                              PushedTips(repo, name, IsLocalBranch(repo, opts.branch)), c.hash)
  {
    hide Incriminates, Above, Judgeable, Shared, Accused, CaseOf, IsCandidate, Excluded;
    var k := CaseOf(repo, opts);
    assert IsGroup(k, cs, sets[i], res.inherited[i]);
    SharingLists(k, cs, sets[i], d);
    var c :| c in cs && Accused(k, c) && Shared(k, c) == sets[i] && c.display == d;
    AccusedIsIncriminating(repo, opts, c);
  }

  /** A branch is clean if and only if no candidate ref incriminates it. */
  lemma CleanIffNobodyIncriminates(repo: Repo, opts: Options, cs: seq<Candidate>, sets: seq<set<Hash>>, res: Result)
    requires Judgeable(repo, opts) && Verdict(repo, opts, cs, sets, res)
    ensures var (name, tip) := ResolveBranch(repo, opts.branch).value;
            res.inherited == [] <==>
            forall r | r in repo.refs && IsCandidate(r, Excluded(repo, opts, name)) ::
              !Incriminates(repo.commits, BaseTips(repo, opts.bases), tip,
                PushedTips(repo, name, IsLocalBranch(repo, opts.branch)), r.hash)
  {
    hide Incriminates, Judgeable, Shared, CaseOf, IsCandidate, Excluded;
    var k := CaseOf(repo, opts);
    var (name, tip) := ResolveBranch(repo, opts.branch).value;
    forall r | r in repo.refs && IsCandidate(r, Excluded(repo, opts, name))
      ensures res.inherited == [] ==> !Accused(k, AsCandidate(r))
      ensures Incriminates(repo.commits, BaseTips(repo, opts.bases), tip,
              PushedTips(repo, name, IsLocalBranch(repo, opts.branch)), r.hash)
              <==> Accused(k, AsCandidate(r))
    {
      AccusedIsIncriminating(repo, opts, AsCandidate(r));
      if k.own != {} { assert AsCandidate(r) in cs; }
    }
    if res.inherited != [] {
      assert IsGroup(k, cs, sets[0], res.inherited[0]);
      SharingLists(k, cs, sets[0], res.inherited[0].refs[0]);
      var c :| c in cs && Accused(k, c);
      var r :| r in repo.refs && IsCandidate(r, Excluded(repo, opts, name)) && c == AsCandidate(r);
    }
  }

  /** The same by the names of the refs: the branch is clean if and only if no ref that
      holds a hash, is a branch by its full name and stands for neither the branch nor
      a base incriminates it. */
  lemma CleanByNames(repo: Repo, opts: Options, cs: seq<Candidate>, sets: seq<set<Hash>>, res: Result)
    requires Judgeable(repo, opts) && Verdict(repo, opts, cs, sets, res)
    ensures var (name, tip) := ResolveBranch(repo, opts.branch).value;
            res.inherited == [] <==>
            forall r, b | r in repo.refs && r.kind == HashRef && NamesABranch(r.name)
                          && Identifies(r.name, b) && OtherThan(repo, opts, name, b) ::
              !Incriminates(repo.commits, BaseTips(repo, opts.bases), tip,
                            PushedTips(repo, name, IsLocalBranch(repo, opts.branch)), r.hash)
  {
    hide Incriminates, Judgeable, CaseOf, IsCandidate, Excluded, NamesABranch, Identifies, OtherThan;
    var (name, tip) := ResolveBranch(repo, opts.branch).value;
    CleanIffNobodyIncriminates(repo, opts, cs, sets, res);
    forall r { CandidateIs(repo, opts, name, r); }
  }

  /** A branch whose own commits no other ref reaches is always clean. */
  lemma UnsharedBranchIsClean(repo: Repo, opts: Options, cs: seq<Candidate>, sets: seq<set<Hash>>, res: Result)
    requires Judgeable(repo, opts) && Verdict(repo, opts, cs, sets, res)
    requires forall r | r in repo.refs && IsCandidate(r, Excluded(repo, opts, res.branch)) ::
               Reach(repo.commits, {r.hash}, {}) !! Above(repo.commits, {ResolveBranch(repo, opts.branch).value.1},
                 BaseTips(repo, opts.bases))
    ensures res.inherited == []
  {
    hide Judgeable, CaseOf, IsCandidate, Excluded, Reach;
    CleanIffNobodyIncriminates(repo, opts, cs, sets, res);
  }

  lemma ReachGrows(g: Store, roots: set<Hash>, more: set<Hash>)
    requires roots <= more
    ensures Reach(g, roots, {}) <= Reach(g, more, {})
  {
    forall h: Hash | Reaches(g, roots, {}, h)
      ensures Reaches(g, more, {}, h)
    {
      var p: seq<Hash> :| WalksTo(g, roots, {}, p, h);
      WalkFromMore(g, roots, more, p);
      assert WalksTo(g, more, {}, p, h);
    }
  }

  lemma {:induction false} WalkFromMore(g: Store, roots: set<Hash>, more: set<Hash>, p: seq<Hash>)
    requires roots <= more && Walk(g, roots, {}, p)
    ensures Walk(g, more, {}, p)
    decreases |p|
  {
    if |p| > 1 {
      WalkFromMore(g, roots, more, p[..|p| - 1]);
    }
  }

  /** The exemption of pushed commits only takes accusations away: what a check
      with an exemption reports, a check without one reports too. */
  lemma ExemptionOnlyRemoves(g: Store, bases: set<Hash>, tip: Hash, pushed: set<Hash>, more: set<Hash>, ref: Hash)
    requires pushed <= more && Incriminates(g, bases, tip, more, ref)
    ensures Incriminates(g, bases, tip, pushed, ref)
  {
    hide Reach;
    ReachGrows(g, pushed, more);
  }

  lemma VerdictNames(repo: Repo, opts: Options, cs: seq<Candidate>, sets: seq<set<Hash>>, res: Result)
    requires Verdict(repo, opts, cs, sets, res)
    ensures ResolveBranch(repo, opts.branch).Some? && res.branch == ResolveBranch(repo, opts.branch).value.0
  {
  }

  /** Two checks of the same tip under the same identity, one of them local: every
      ref the local check reports, the other reports, in the group of the same commits. */
  lemma LocalReportsAreRemoteReports(
      repo: Repo, local: Options, cs: seq<Candidate>, sets: seq<set<Hash>>, res: Result,
      remote: Options, cs': seq<Candidate>, sets': seq<set<Hash>>, res': Result, r: Ref, i: int)
    requires Judgeable(repo, local) && Verdict(repo, local, cs, sets, res)
    requires Judgeable(repo, remote) && Verdict(repo, remote, cs', sets', res')
    requires ResolveBranch(repo, local.branch) == ResolveBranch(repo, remote.branch) && local.bases == remote.bases
    requires !IsLocalBranch(repo, remote.branch)
    requires r in repo.refs && IsCandidate(r, Excluded(repo, local, res.branch))
    requires ReportedIn(res, sets, Shared(CaseOf(repo, local), AsCandidate(r)), DisplayRefName(r.name), i)
    ensures exists j :: ReportedIn(res', sets', sets[i], DisplayRefName(r.name), j)
  {
    hide Judgeable, Verdict, Shared, CaseOf, IsCandidate, IsLocalBranch, BaseTips, Incriminates, Above;
    VerdictNames(repo, local, cs, sets, res);
    VerdictNames(repo, remote, cs', sets', res');
    assert Excluded(repo, local, res.branch) == Excluded(repo, remote, res'.branch);
    var (name, tip) := ResolveBranch(repo, local.branch).value;
    var bases := BaseTips(repo, local.bases);
    AccusedIsIncriminating(repo, local, AsCandidate(r));
    AccusedIsIncriminating(repo, remote, AsCandidate(r));
    ReportedIffIncriminating(repo, local, cs, sets, res, r);
    ReportedIffIncriminating(repo, remote, cs', sets', res', r);
    ExemptionOnlyRemoves(repo.commits, bases, tip, {}, PushedTips(repo, name, IsLocalBranch(repo, local.branch)),
      r.hash);
  }

  /** A remote-tracking ref counts as the branch's own pushed past exactly when the
      remote's name has no slash and the local name is plain. */
  lemma TwinCountsAsPushed(remote: string, b: string, h: Hash)
    ensures IsPushed(Ref(REMOTES + remote + "/" + b, HashRef, h), ShortRefName(HEADS + b)) <==>
            '/' !in remote && PlainBranchName(b)
  {
    var name := REMOTES + remote + "/" + b;
    assert name == REMOTES + (remote + "/" + b);
    TwinIdentity(remote, b);
  }

  /** A candidate shares some but not all of the branch's own commits. */
  ghost predicate SharesPart(repo: Repo, opts: Options, name: string, tip: Hash, r: Ref) {
    && r in repo.refs && IsCandidate(r, Excluded(repo, opts, name))
    && var own := Above(repo.commits, {tip}, BaseTips(repo, opts.bases));
    && var shared := Above(repo.commits, {r.hash}, BaseTips(repo, opts.bases)) * own;
    && shared != {} && shared < own
  }

  /** The exemption of a local branch that equals its own remote-tracking ref. With a
      remote's name without a slash and a plain local name the branch is clean. With
      any other names that ref does not count: unless some other one does, the
      branch is refused if and only if a candidate shares a strict part of it. */
  lemma PushedBranchIsClean(repo: Repo, opts: Options, cs: seq<Candidate>, sets: seq<set<Hash>>, res: Result,
                            remote: string, b: string)
    requires Judgeable(repo, opts) && Verdict(repo, opts, cs, sets, res)
    requires IsLocalBranch(repo, opts.branch) && res.branch == ShortRefName(HEADS + b)
    requires Ref(REMOTES + remote + "/" + b, HashRef, ResolveBranch(repo, opts.branch).value.1) in repo.refs
    ensures '/' !in remote && PlainBranchName(b) ==> res.inherited == []
    ensures !('/' !in remote && PlainBranchName(b))
            && (forall q | q in repo.refs && q.name != REMOTES + remote + "/" + b :: !IsPushed(q, res.branch)) ==>
              (res.inherited != [] <==>
               exists r :: SharesPart(repo, opts, res.branch, ResolveBranch(repo, opts.branch).value.1, r))
  {
    hide Judgeable, CaseOf, IsCandidate, Excluded, Reach, IsLocalBranch, ShortRefName, SharesPart;
    var (name, tip) := ResolveBranch(repo, opts.branch).value;
    var twin := REMOTES + remote + "/" + b;
    if '/' !in remote && PlainBranchName(b) {
      TwinCountsAsPushed(remote, b, tip);
      assert tip in PushedTips(repo, name, true) by {
        assert IsPushed(Ref(twin, HashRef, tip), name);
      }
      ReachGrows(repo.commits, {tip}, PushedTips(repo, name, true));
      CleanIffNobodyIncriminates(repo, opts, cs, sets, res);
    } else if forall q | q in repo.refs && q.name != twin :: !IsPushed(q, name) {
      forall q | q in repo.refs ensures !IsPushed(q, name) {
        if q.name == twin && q.kind == HashRef { TwinCountsAsPushed(remote, b, q.hash); }
      }
      NoExemptionWithoutAPushedRef(repo, opts, cs, sets, res);
    }
  }

  /** Without a remote-tracking ref that has the branch's identity nothing is exempt:
      the branch is refused if and only if a candidate shares a strict part of it. */
  lemma NoExemptionWithoutAPushedRef(repo: Repo, opts: Options, cs: seq<Candidate>, sets: seq<set<Hash>>, res: Result)
    requires Judgeable(repo, opts) && Verdict(repo, opts, cs, sets, res)
    requires forall q | q in repo.refs :: !IsPushed(q, res.branch)
    ensures res.inherited != [] <==>
            exists r :: SharesPart(repo, opts, res.branch, ResolveBranch(repo, opts.branch).value.1, r)
  {
    hide Judgeable, CaseOf, IsCandidate, Excluded, Reach, IsLocalBranch, ShortRefName, IsPushed;
    var (name, tip) := ResolveBranch(repo, opts.branch).value;
    var pushed := PushedTips(repo, name, IsLocalBranch(repo, opts.branch));
    assert pushed == {};
    assert Reach(repo.commits, {}, {}) == {} by { NoRootsNoReach(repo.commits); }
    CleanIffNobodyIncriminates(repo, opts, cs, sets, res);
    if res.inherited != [] {
      var r :| r in repo.refs && IsCandidate(r, Excluded(repo, opts, name))
            && Incriminates(repo.commits, BaseTips(repo, opts.bases), tip, pushed, r.hash);
      assert SharesPart(repo, opts, name, tip, r);
    }
  }

  lemma NothingReachesNothing(g: Store, p: seq<Hash>)
    requires Walk(g, {}, {}, p)
    ensures false
    decreases |p|
  {
    if |p| > 1 {
      NothingReachesNothing(g, p[..|p| - 1]);
    }
  }

  lemma NoRootsNoReach(g: Store)
    ensures Reach(g, {}, {}) == {}
  {
    forall h | h in Reach(g, {}, {}) ensures false {
      var p: seq<Hash> :| WalksTo(g, {}, {}, p, h);
      NothingReachesNothing(g, p);
    }
  }

  /** A recorded waiver is never one that an inherited commit carries. */
  lemma WaiverIsTheAuthors(repo: Repo, opts: Options, cs: seq<Candidate>, sets: seq<set<Hash>>, res: Result, i: int)
    requires Judgeable(repo, opts) && Verdict(repo, opts, cs, sets, res)
    requires res.waiver.Waiver? && 0 <= i < |res.inherited|
    ensures res.waiver.commit.hash in Above(repo.commits, {ResolveBranch(repo, opts.branch).value.1},
            BaseTips(repo, opts.bases))
    ensures forall c | c in res.inherited[i].commits :: c.hash != res.waiver.commit.hash
  {
    hide Reach, Complete, IsLocalBranch, OverrideReason, Subject, Sharing;
    WalkIsDifference(repo.commits, BaseTips(repo, opts.bases), {ResolveBranch(repo, opts.branch).value.1});
    var k := CaseOf(repo, opts);
    assert IsGroup(k, cs, sets[i], res.inherited[i]);
    forall c | c in res.inherited[i].commits ensures c.hash in Union(sets) {
      var n :| 0 <= n < |res.inherited[i].commits| && res.inherited[i].commits[n] == c;
      assert c.hash in sets[i];
    }
  }
}
