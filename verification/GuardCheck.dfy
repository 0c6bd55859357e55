/** Grouping the accused refs, the waiver and the verdict of `Check`. */
module GuardCheck {
  import opened CommitGraph
  import opened RefNames
  import opened GuardSpec
  import opened BranchGuard
  import Sorting

  /** The bookkeeping of the grouping loop after the refs `cs`. */
  ghost predicate Grouping(k: Case, cs: seq<Candidate>, sets: seq<set<Hash>>, groups: map<string, Inherited>,
                           order: seq<string>) {
    && |order| == |sets|
    && Sorting.Distinct(sets)
    && Covers(k, cs, sets)
    && (forall o | o in groups :: o in order)
    && (forall i | 0 <= i < |order| ::
          && order[i] in groups
          && IsSignature(order[i], sets[i])
          && IsGroup(k, cs, sets[i], groups[order[i]]))
  }

  lemma GroupKept(k: Case, cs: seq<Candidate>, c: Candidate, s: set<Hash>, group: Inherited)
    requires IsGroup(k, cs, s, group) && !(Accused(k, c) && Shared(k, c) == s)
    ensures IsGroup(k, cs + [c], s, group)
  {
    assert (cs + [c])[..|cs|] == cs;
  }

  lemma GroupGrows(k: Case, cs: seq<Candidate>, c: Candidate, s: set<Hash>, group: Inherited)
    requires IsGroup(k, cs, s, group) && Accused(k, c) && Shared(k, c) == s
    ensures IsGroup(k, cs + [c], s, group.(refs := group.refs + [c.display]))
  {
    assert (cs + [c])[..|cs|] == cs;
  }

  lemma {:induction false} SharingNeedsASharer(k: Case, cs: seq<Candidate>, s: set<Hash>)
    requires forall c | c in cs && Accused(k, c) :: Shared(k, c) != s
    ensures Sharing(k, cs, s) == []
  {
    if cs != [] {
      SharingNeedsASharer(k, cs[..|cs| - 1], s);
    }
  }

  lemma NothingAccused(k: Case, cs: seq<Candidate>, c: Candidate, sets: seq<set<Hash>>,
                       groups: map<string, Inherited>, order: seq<string>)
    requires Grouping(k, cs, sets, groups, order) && !Accused(k, c)
    ensures Grouping(k, cs + [c], sets, groups, order)
  {
    forall i | 0 <= i < |order| { GroupKept(k, cs, c, sets[i], groups[order[i]]); }
  }

  lemma JoinsGroup(k: Case, cs: seq<Candidate>, c: Candidate, sets: seq<set<Hash>>, groups: map<string, Inherited>,
                   order: seq<string>, sig: string)
    requires Grouping(k, cs, sets, groups, order) && Accused(k, c)
    requires sig in groups && IsSignature(sig, Shared(k, c))
    ensures Grouping(k, cs + [c], sets, groups[sig := groups[sig].(refs := groups[sig].refs + [c.display])], order)
  {
    hide IsGroup, IsSignature, Accused, Shared;
    forall i | 0 <= i < |order|
      ensures order[i] == sig ==>
                Shared(k, c) == sets[i]
                  && IsGroup(k, cs + [c], sets[i], groups[sig].(refs := groups[sig].refs + [c.display]))
      ensures order[i] != sig ==> IsGroup(k, cs + [c], sets[i], groups[order[i]])
    {
      SignatureIsExact(order[i], sig, sets[i], Shared(k, c));
      if order[i] == sig {
        GroupGrows(k, cs, c, sets[i], groups[sig]);
      } else {
        GroupKept(k, cs, c, sets[i], groups[order[i]]);
      }
    }
  }

  lemma OpensGroup(k: Case, cs: seq<Candidate>, c: Candidate, sets: seq<set<Hash>>, groups: map<string, Inherited>,
                   order: seq<string>, sig: string, group: Inherited)
    requires Grouping(k, cs, sets, groups, order) && Accused(k, c)
    requires sig !in groups && IsSignature(sig, Shared(k, c))
    requires IsGroup(k, cs + [c], Shared(k, c), group)
    ensures Grouping(k, cs + [c], sets + [Shared(k, c)], groups[sig := group], order + [sig])
  {
    hide IsGroup, IsSignature, Accused, Shared;
    forall i | 0 <= i < |order|
      ensures order[i] != sig && sets[i] != Shared(k, c) && IsGroup(k, cs + [c], sets[i], groups[order[i]])
    {
      SignatureIsExact(order[i], sig, sets[i], Shared(k, c));
      GroupKept(k, cs, c, sets[i], groups[order[i]]);
    }
  }

  lemma GroupOfOne(k: Case, cs: seq<Candidate>, c: Candidate, sets: seq<set<Hash>>, groups: map<string, Inherited>,
                   order: seq<string>, sig: string, group: Inherited)
    requires Grouping(k, cs, sets, groups, order) && Accused(k, c)
    requires sig !in groups && IsSignature(sig, Shared(k, c))
    requires Shared(k, c) <= k.g.Keys && group.refs == [c.display]
    requires ListsCommits(k.g, Shared(k, c), group.commits)
    requires Sorting.Lists<string>(Sorting.StringLess, group.files, ChangedByAny(k.g, Shared(k, c)))
    ensures IsGroup(k, cs + [c], Shared(k, c), group)
  {
    forall i | 0 <= i < |sets| ensures sets[i] != Shared(k, c) {
      SignatureIsExact(order[i], sig, sets[i], Shared(k, c));
    }
    SharingNeedsASharer(k, cs, Shared(k, c));
    assert (cs + [c])[..|cs|] == cs;
  }

  /** A commit that a walk found has its first parent in the store. */
  lemma FirstParentIsRead(g: Store, roots: set<Hash>, stop: set<Hash>, h: Hash)
    requires Complete(g, roots, stop) && stop <= g.Keys && h in Reach(g, roots, stop)
    ensures g[h].parents == [] || g[h].parents[0] in g
  {
    if g[h].parents != [] && g[h].parents[0] !in stop {
      ReachesParent(g, roots, stop, h, g[h].parents[0]);
    }
  }

  ghost predicate AllRead(g: Store, cs: seq<Candidate>, stop: set<Hash>) {
    forall c | c in cs :: Complete(g, {c.hash}, stop)
  }

  lemma ListsCommitsOfStore(m: map<Hash, Commit>, g: Store, out: seq<CommitLine>)
    requires (forall h | h in m :: h in g && m[h] == g[h]) && ListsCommits(m, m.Keys, out)
    ensures m.Keys <= g.Keys && ListsCommits(g, m.Keys, out)
  {
  }

  /** The grouping loop: each candidate is judged once; refs that share the same
      commits land in one group. */
  method GroupRefs(repo: Repo, cs: seq<Candidate>, baseSet: map<Hash, Commit>, own: map<Hash, Commit>,
                   pushed: map<Hash, Commit>)
      returns (ok: bool, out: seq<Inherited>, ghost sets: seq<set<Hash>>)
    requires baseSet.Keys <= repo.commits.Keys
    ensures ok <==> AllRead(repo.commits, cs, baseSet.Keys)
    ensures ok ==> Grouped(Case(repo.commits, baseSet.Keys, own.Keys, pushed.Keys), cs, sets, out)
  {
    hide IsGroup, IsSignature, ListsCommits, ChangedByAny, Complete, Reach;
    ghost var k := Case(repo.commits, baseSet.Keys, own.Keys, pushed.Keys);
    var groups: map<string, Inherited>, order: seq<string> := map[], [];
    sets := [];
    for n := 0 to |cs|
      invariant AllRead(repo.commits, cs[..n], baseSet.Keys)
      invariant Grouping(k, cs[..n], sets, groups, order)
    {
      var c := cs[n];
      assert cs[..n + 1] == cs[..n] + [c];
      var read, shared := SharedCommits(repo.commits, c.hash, baseSet, own);
      if !read {
        return false, [], [];
      }
      var within := SubsetOf(shared, pushed);
      if !(0 < |shared| < |own|) || within {
        NothingAccused(k, cs[..n], c, sets, groups, order);
        continue;
      }
      var sig := Signature(shared);
      if sig in groups {
        JoinsGroup(k, cs[..n], c, sets, groups, order, sig);
        groups := groups[sig := groups[sig].(refs := groups[sig].refs + [c.display])];
        continue;
      }
      forall h | h in shared { FirstParentIsRead(repo.commits, {c.hash}, baseSet.Keys, h); }
      var diffed, files := ChangedFiles(repo.commits, shared);
      var commits := SortedCommits(shared);
      ListsCommitsOfStore(shared, repo.commits, commits);
      GroupOfOne(k, cs[..n], c, sets, groups, order, sig, Inherited([c.display], commits, files));
      OpensGroup(k, cs[..n], c, sets, groups, order, sig, Inherited([c.display], commits, files));
      groups, order, sets := groups[sig := Inherited([c.display], commits, files)], order + [sig], sets + [shared.Keys];
    }
    assert cs[..|cs|] == cs;
    out := Collect(groups, order);
    ok := true;
  }

  method Collect(groups: map<string, Inherited>, order: seq<string>) returns (out: seq<Inherited>)
    requires forall o | o in order :: o in groups
    ensures |out| == |order| && forall i | 0 <= i < |out| :: out[i] == groups[order[i]]
  {
    out := [];
    for n := 0 to |order|
      invariant |out| == n && forall i | 0 <= i < n :: out[i] == groups[order[i]]
    {
      out := out + [groups[order[n]]];
    }
  }

  method UnionFiles(inherited: seq<Inherited>) returns (out: seq<string>)
    ensures Sorting.Lists<string>(Sorting.StringLess, out,
                                  set i, f | 0 <= i < |inherited| && f in inherited[i].files :: f)
  {
    var seen: set<string> := {};
    for i := 0 to |inherited|
      invariant seen == set j, f | 0 <= j < i && f in inherited[j].files :: f
    {
      ghost var before := seen;
      var files := inherited[i].files;
      for n := 0 to |files|
        invariant seen == before + set f | f in files[..n]
      {
        seen := seen + {files[n]};
      }
      assert files[..|files|] == files;
    }
    out := Sorting.SortedStrings(seen);
  }

  method InheritedHashes(inherited: seq<Inherited>) returns (out: set<Hash>)
    ensures out == Named(inherited)
  {
    out := {};
    for i := 0 to |inherited|
      invariant out == set j, c | 0 <= j < i && c in inherited[j].commits :: c.hash
    {
      ghost var before := out;
      var commits := inherited[i].commits;
      for n := 0 to |commits|
        invariant out == before + set c | c in commits[..n] :: c.hash
      {
        out := out + {commits[n].hash};
      }
      assert commits[..|commits|] == commits;
    }
  }

  ghost function Named(inherited: seq<Inherited>): set<Hash> {
    set i, c | 0 <= i < |inherited| && c in inherited[i].commits :: c.hash
  }

  method FindOverride(own: map<Hash, Commit>, inherited: seq<Inherited>) returns (w: Waiver)
    ensures IsWaiver(own, own.Keys - Named(inherited), w)
  {
    var skip := InheritedHashes(inherited);
    var candidates := map h | h in own && h !in skip :: own[h];
    assert candidates.Keys == own.Keys - Named(inherited);
    w := NewestWaiver(candidates);
    assert forall h | h in candidates :: candidates[h] == own[h];
  }

  /** The backward scan over the commits, oldest first. */
  method NewestWaiver(candidates: map<Hash, Commit>) returns (w: Waiver)
    ensures IsWaiver(candidates, candidates.Keys, w)
  {
    hide OverrideReason, StampLess, Subject;
    var ordered := SortedCommits(candidates);
    var i := |ordered|;
    while i > 0
      invariant 0 <= i <= |ordered|
      invariant forall j | i <= j < |ordered| :: OverrideReason(candidates[ordered[j].hash].message) == ""
    {
      i := i - 1;
      var reason := OverrideReason(candidates[ordered[i].hash].message);
      if reason != "" {
        forall h | h in candidates && h != ordered[i].hash && OverrideReason(candidates[h].message) != ""
          ensures StampLess(Stamp(candidates[h].time, h), Stamp(candidates[ordered[i].hash].time, ordered[i].hash))
        {
          var j :| 0 <= j < |ordered| && ordered[j].hash == h;
          assert j < i;
        }
        return Waiver(reason, ordered[i]);
      }
    }
    return NoWaiver;
  }

  lemma GroupsNameTheirCommits(k: Case, cs: seq<Candidate>, sets: seq<set<Hash>>, out: seq<Inherited>)
    requires Grouped(k, cs, sets, out)
    ensures Named(out) == Union(sets)
  {
    hide Sharing, StampLess, Subject;
    forall h: Hash ensures h in Named(out) <==> h in Union(sets) {
      if h in Union(sets) {
        var i :| 0 <= i < |sets| && h in sets[i];
        assert IsGroup(k, cs, sets[i], out[i]);
        var n :| 0 <= n < |out[i].commits| && out[i].commits[n].hash == h;
        assert out[i].commits[n] in out[i].commits;
      }
      if h in Named(out) {
        var i, c :| 0 <= i < |out| && c in out[i].commits && c.hash == h;
        assert IsGroup(k, cs, sets[i], out[i]);
      }
    }
  }

  lemma GroupsNameTheirFiles(k: Case, cs: seq<Candidate>, sets: seq<set<Hash>>, out: seq<Inherited>)
    requires Grouped(k, cs, sets, out)
    ensures (set i, f | 0 <= i < |out| && f in out[i].files :: f) == ChangedByAny(k.g, Union(sets))
  {
    hide Sharing, ListsCommits, ChangedBy;
    forall f: string
      ensures f in (set i, f | 0 <= i < |out| && f in out[i].files :: f) <==> f in ChangedByAny(k.g, Union(sets))
    {
      if f in ChangedByAny(k.g, Union(sets)) {
        var h :| h in Union(sets) && h in k.g && f in ChangedBy(k.g, k.g[h]);
        var i :| 0 <= i < |sets| && h in sets[i];
        assert IsGroup(k, cs, sets[i], out[i]);
        assert f in ChangedByAny(k.g, sets[i]);
      }
      if i :| 0 <= i < |out| && f in out[i].files {
        assert IsGroup(k, cs, sets[i], out[i]);
        assert f in ChangedByAny(k.g, sets[i]);
      }
    }
  }

  lemma WaiverOfStore(m: map<Hash, Commit>, g: Store, mine: set<Hash>, w: Waiver)
    requires (forall h | h in m :: h in g && m[h] == g[h]) && mine <= m.Keys && IsWaiver(m, mine, w)
    ensures mine <= g.Keys && IsWaiver(g, mine, w)
  {
    hide OverrideReason, Subject, StampLess;
  }

  /** `Check`: it answers exactly when the names resolve and the commits can be
      read, and the answer is the verdict. */
  method Check(repo: Repo, opts: Options)
      returns (ok: bool, res: Result, ghost cs: seq<Candidate>, ghost sets: seq<set<Hash>>)
    requires OneRefPerName(repo)
    ensures ok <==> Judgeable(repo, opts)
    ensures ok ==> Verdict(repo, opts, cs, sets, res)
  {
    hide Complete, Reach, Grouped, IsWaiver, ChangedByAny, IsCandidate, IsLocalBranch, BasesResolve;
    res, cs, sets := Result("", [], [], [], NoWaiver), [], [];
    var target := ResolveBranch(repo, opts.branch);
    if target.None? {
      return false, res, cs, sets;
    }
    var (name, tip) := target.value;
    var found, bases, baseHashes := ResolveBases(repo, opts.bases);
    if !found {
      return false, res, cs, sets;
    }
    var none: map<Hash, Commit> := map[];
    assert none.Keys == {};
    var readBase, baseSet := Walked(repo.commits, baseHashes, none);
    if !readBase {
      return false, res, cs, sets;
    }
    assert Members([tip]) == {tip};
    var readOwn, own := Walked(repo.commits, [tip], baseSet);
    if !readOwn {
      return false, res, cs, sets;
    }
    ghost var k := CaseOf(repo, opts);
    if |own| == 0 {
      NothingOwnIsClean(k);
      res := Result(name, bases, [], [], NoWaiver);
      return true, res, cs, sets;
    }
    var inherited;
    ok, inherited, cs, sets := InheritedFrom(repo, opts, name, bases, baseSet, own);
    if ok {
      var files := UnionFiles(inherited);
      var waiver := FindOverride(own, inherited);
      GroupsNameTheirCommits(k, cs, sets, inherited);
      GroupsNameTheirFiles(k, cs, sets, inherited);
      WaiverOfStore(own, repo.commits, own.Keys - Union(sets), waiver);
      res := Result(name, bases, inherited, files, waiver);
    }
  }

  lemma NothingOwnIsClean(k: Case)
    requires k.own == {}
    ensures Grouped(k, [], [], [])
    ensures Sorting.Lists<string>(Sorting.StringLess, [], ChangedByAny(k.g, Union([])))
    ensures IsWaiver(k.g, k.own - Union([]), NoWaiver)
  {
  }

  method InheritedFrom(repo: Repo, opts: Options, name: string, bases: seq<string>, baseSet: map<Hash, Commit>,
                       own: map<Hash, Commit>)
      returns (ok: bool, out: seq<Inherited>, ghost cs: seq<Candidate>, ghost sets: seq<set<Hash>>)
    requires OneRefPerName(repo) && bases == BaseNames(repo, opts.bases)
    requires baseSet.Keys <= repo.commits.Keys
    ensures ok <==>
            && Complete(repo.commits, PushedTips(repo, name, IsLocalBranch(repo, opts.branch)), baseSet.Keys)
            && forall r | r in repo.refs && IsCandidate(r, Excluded(repo, opts, name)) ::
                 Complete(repo.commits, {r.hash}, baseSet.Keys)
    ensures ok ==> CandidatesAre(repo, Excluded(repo, opts, name), cs) && Sorting.Increasing(CandidateLess, cs)
    ensures ok ==>
      Grouped(Case(repo.commits, baseSet.Keys, own.Keys,
                   Reach(repo.commits, PushedTips(repo, name, IsLocalBranch(repo, opts.branch)), baseSet.Keys)),
                cs, sets, out)
  {
    hide Complete, Reach, Grouped, IsCandidate, IsLocalBranch;
    var excluded := set n | n in [name] + bases :: ShortRefName(n);
    var refs := CandidateRefs(repo, excluded);
    cs, out, sets := refs, [], [];
    var pushed;
    ok, pushed := PushedCommits(repo, name, IsLocalBranch(repo, opts.branch), baseSet);
    if ok {
      ok, out, sets := GroupRefs(repo, refs, baseSet, own, pushed);
      AllReadByRef(repo, excluded, refs, baseSet.Keys);
    }
  }

  lemma AllReadByRef(repo: Repo, excluded: set<string>, cs: seq<Candidate>, stop: set<Hash>)
    requires CandidatesAre(repo, excluded, cs)
    ensures AllRead(repo.commits, cs, stop) <==>
            forall r | r in repo.refs && IsCandidate(r, excluded) :: Complete(repo.commits, {r.hash}, stop)
  {
    hide Complete, IsCandidate;
    if AllRead(repo.commits, cs, stop) {
      forall r | r in repo.refs && IsCandidate(r, excluded)
        ensures Complete(repo.commits, {r.hash}, stop)
      {
        assert AsCandidate(r) in cs;
      }
    }
  }
}
