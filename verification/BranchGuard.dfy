/** The branch-scope guard: `Check` and the loops it is made of. */
module BranchGuard {
  import opened CommitGraph
  import opened RefNames
  import opened GuardSpec
  import Sorting
  import Text

  method SortedStamps(keys: set<Stamp>) returns (out: seq<Stamp>)
    ensures Sorting.Lists(StampLess, out, keys)
  {
    StampOrder();
    out := Sorting.SortedKeys(StampLess, keys);
  }

  method SortedCommits(commits: map<Hash, Commit>) returns (out: seq<CommitLine>)
    ensures ListsCommits(commits, commits.Keys, out)
  {
    hide StampLess, Subject, ListsCommits, Sorting.Increasing;
    var stamps := SortedStamps(set h | h in commits :: Stamp(commits[h].time, h));
    assert forall i | 0 <= i < |stamps| :: stamps[i] in stamps;
    out := [];
    for n := 0 to |stamps|
      invariant |out| == n
      invariant forall i | 0 <= i < n :: out[i] == CommitLine(stamps[i].hash, Subject(commits[stamps[i].hash].message))
    {
      out := out + [CommitLine(stamps[n].hash, Subject(commits[stamps[n].hash].message))];
    }
    StampsListCommits(commits, stamps, out);
  }

  lemma StampsListCommits(commits: map<Hash, Commit>, stamps: seq<Stamp>, out: seq<CommitLine>)
    requires Sorting.Lists(StampLess, stamps, set h | h in commits :: Stamp(commits[h].time, h))
    requires |out| == |stamps|
    requires forall i | 0 <= i < |stamps| ::
      stamps[i].hash in commits && out[i] == CommitLine(stamps[i].hash, Subject(commits[stamps[i].hash].message))
    ensures ListsCommits(commits, commits.Keys, out)
  {
    hide StampLess, Subject;
    forall i | 0 <= i < |stamps| ensures stamps[i] == Stamp(commits[stamps[i].hash].time, stamps[i].hash) {
      assert stamps[i] in stamps;
    }
    forall h | h in commits
      ensures exists i :: 0 <= i < |out| && out[i].hash == h
    {
      assert Stamp(commits[h].time, h) in stamps;
      var i :| 0 <= i < |stamps| && stamps[i] == Stamp(commits[h].time, h);
      assert out[i].hash == h;
    }
  }

  method Signature(s: map<Hash, Commit>) returns (sig: string)
    ensures IsSignature(sig, s.Keys)
  {
    var hashes := Sorting.SortedStrings(s.Keys);
    sig := Text.Join(hashes, ",");
  }

  lemma {:induction false} JoinLength(l: seq<string>)
    requires l != [] && forall w | w in l :: |w| == 40
    ensures |Text.Join(l, ",")| == 41 * |l| - 1
  {
    if |l| > 1 {
      JoinLength(l[1..]);
    }
  }

  lemma {:induction false} JoinInjective(a: seq<string>, b: seq<string>)
    requires forall w | w in a :: |w| == 40
    requires forall w | w in b :: |w| == 40
    requires Text.Join(a, ",") == Text.Join(b, ",")
    ensures a == b
    decreases |a|
  {
    if a != [] { JoinLength(a); }
    if b != [] { JoinLength(b); }
    if a != [] {
      assert |a| == |b|;
      assert a[0] == Text.Join(a, ",")[..40] == Text.Join(b, ",")[..40] == b[0];
      if |a| > 1 {
        assert Text.Join(a[1..], ",") == Text.Join(a, ",")[41..];
        assert Text.Join(b[1..], ",") == Text.Join(b, ",")[41..];
        JoinInjective(a[1..], b[1..]);
        assert a == [a[0]] + a[1..] && b == [b[0]] + b[1..];
      }
    }
  }

  /** A signature stands for exactly one commit set, and a set has exactly one. */
  lemma SignatureIsExact(a: string, b: string, s: set<Hash>, t: set<Hash>)
    requires IsSignature(a, s) && IsSignature(b, t)
    ensures a == b <==> s == t
  {
    Sorting.StringOrder();
    var l: seq<string> :| Sorting.Lists<string>(Sorting.StringLess, l, s) && a == Text.Join(l, ",");
    var m: seq<string> :| Sorting.Lists<string>(Sorting.StringLess, m, t) && b == Text.Join(m, ",");
    if a == b {
      JoinInjective(l, m);
      assert forall h: Hash :: h in s <==> h in t;
    }
    if s == t {
      Sorting.ListingIsUnique(Sorting.StringLess, l, m, s);
    }
  }

  method ResolveBases(repo: Repo, declared: seq<string>) returns (ok: bool, names: seq<string>, hashes: seq<Hash>)
    ensures ok <==> BasesResolve(repo, declared)
    ensures ok ==> names == BaseNames(repo, declared) && Members(hashes) == BaseTips(repo, declared)
  {
    var tried := if declared == [] then DEFAULT_BASES else declared;
    names, hashes := [], [];
    for i := 0 to |tried|
      invariant names == Resolvable(repo, tried[..i])
      invariant declared != [] ==> names == tried[..i] && forall n | n in tried[..i] :: n in repo.revisions
      invariant |hashes| == |names| && Members(hashes) == TipsOf(repo, names)
    {
      assert tried[..i + 1][..i] == tried[..i];
      if tried[i] in repo.revisions {
        TipsGrow(repo, names, hashes, tried[i]);
        names, hashes := names + [tried[i]], hashes + [repo.revisions[tried[i]]];
      } else if declared != [] {
        return false, [], [];
      }
    }
    assert tried[..|tried|] == tried;
    ok := hashes != [];
  }

  lemma TipsGrow(repo: Repo, names: seq<string>, hashes: seq<Hash>, n: string)
    requires Members(hashes) == TipsOf(repo, names) && n in repo.revisions
    ensures Members(hashes + [repo.revisions[n]]) == TipsOf(repo, names + [n])
  {
    assert Members(hashes + [repo.revisions[n]]) == Members(hashes) + {repo.revisions[n]};
    assert TipsOf(repo, names + [n]) == TipsOf(repo, names) + {repo.revisions[n]};
  }

  lemma CandidatesStayDistinct(excluded: set<string>, r: Ref, q: Ref)
    requires IsCandidate(r, excluded) && IsCandidate(q, excluded) && AsCandidate(r) == AsCandidate(q)
    ensures r.name == q.name
  {
    hide ShortRefName;
    var p := if REMOTES <= r.name then REMOTES else HEADS;
    assert r.name == p + r.name[|p|..] && q.name == p + q.name[|p|..];
  }

  method CandidateRefs(repo: Repo, excluded: set<string>) returns (out: seq<Candidate>)
    requires OneRefPerName(repo)
    ensures Sorting.Increasing(CandidateLess, out)
    ensures forall c :: c in out <==> exists r | r in repo.refs :: IsCandidate(r, excluded) && c == AsCandidate(r)
  {
    hide IsCandidate, AsCandidate, CandidateLess;
    var found: seq<Candidate> := [];
    ghost var from: seq<Ref> := [];
    for i := 0 to |repo.refs|
      invariant |from| == |found| && Sorting.Distinct(found)
      invariant forall j | 0 <= j < |from| ::
                  found[j] == AsCandidate(from[j]) && IsCandidate(from[j], excluded) && from[j] in repo.refs[..i]
      invariant forall r | r in repo.refs[..i] && IsCandidate(r, excluded) :: AsCandidate(r) in found
    {
      var r := repo.refs[i];
      if IsCandidate(r, excluded) {
        forall j | 0 <= j < |found| ensures found[j] != AsCandidate(r) {
          if found[j] == AsCandidate(r) { CandidatesStayDistinct(excluded, from[j], r); }
        }
        found, from := found + [AsCandidate(r)], from + [r];
      }
    }
    assert repo.refs[..|repo.refs|] == repo.refs;
    out := SortedCandidates(found);
  }

  function SortedCandidates(found: seq<Candidate>): (out: seq<Candidate>)
    requires Sorting.Distinct(found)
    ensures Sorting.Increasing(CandidateLess, out) && forall c :: c in out <==> c in found
  {
    CandidateOrder();
    Sorting.Sort(CandidateLess, found)
  }

  method PushedCommits(repo: Repo, name: string, local: bool, baseSet: map<Hash, Commit>)
      returns (ok: bool, pushed: map<Hash, Commit>)
    ensures ok <==> Complete(repo.commits, PushedTips(repo, name, local), baseSet.Keys)
    ensures ok ==> pushed.Keys == Reach(repo.commits, PushedTips(repo, name, local), baseSet.Keys)
  {
    hide IsPushed, Complete, Reach;
    var tips: seq<Hash> := [];
    if local {
      for i := 0 to |repo.refs|
        invariant forall h :: h in tips <==> exists r | r in repo.refs[..i] :: IsPushed(r, name) && h == r.hash
      {
        if IsPushed(repo.refs[i], name) {
          tips := tips + [repo.refs[i].hash];
        }
      }
      assert repo.refs[..|repo.refs|] == repo.refs;
    }
    assert Members(tips) == PushedTips(repo, name, local);
    ok, pushed := Walked(repo.commits, tips, baseSet);
  }

  method SubsetOf(s: map<Hash, Commit>, of: map<Hash, Commit>) returns (b: bool)
    ensures b <==> s.Keys <= of.Keys
  {
    var rest := s.Keys;
    while rest != {}
      invariant rest <= s.Keys && s.Keys - rest <= of.Keys
      decreases rest
    {
      var h :| h in rest;
      if h !in of {
        return false;
      }
      rest := rest - {h};
    }
    return true;
  }

  method SharedCommits(g: Store, tip: Hash, baseSet: map<Hash, Commit>, own: map<Hash, Commit>)
      returns (ok: bool, shared: map<Hash, Commit>)
    ensures ok <==> Complete(g, {tip}, baseSet.Keys)
    ensures ok ==> shared.Keys == Reach(g, {tip}, baseSet.Keys) * own.Keys
    ensures ok ==> forall h | h in shared :: h in g && shared[h] == g[h]
  {
    assert Members([tip]) == {tip};
    var refOwn;
    ok, refOwn := Walked(g, [tip], baseSet);
    shared := map[];
    var rest := refOwn.Keys;
    while rest != {}
      invariant rest <= refOwn.Keys && shared.Keys == (refOwn.Keys - rest) * own.Keys
      invariant forall h | h in shared :: h in refOwn && shared[h] == refOwn[h]
      decreases rest
    {
      var h :| h in rest;
      if h in own {
        shared := shared[h := refOwn[h]];
      }
      rest := rest - {h};
    }
  }

  method CommitFiles(g: Store, c: Commit, into: set<string>) returns (ok: bool, paths: set<string>)
    ensures ok <==> c.parents == [] || c.parents[0] in g
    ensures ok ==> paths == into + ChangedBy(g, c)
  {
    if c.parents == [] {
      return true, into + set p | p in c.tree && c.tree[p].mode != Submodule;
    }
    if c.parents[0] !in g {
      return false, into;
    }
    var before, after := g[c.parents[0]].tree, c.tree;
    return true, into + set p | p in before.Keys + after.Keys && !(p in before && p in after && before[p] == after[p]);
  }

  method ChangedFiles(g: Store, commits: map<Hash, Commit>) returns (ok: bool, files: seq<string>)
    requires forall h | h in commits :: h in g && commits[h] == g[h]
    ensures ok <==> forall h | h in commits :: g[h].parents == [] || g[h].parents[0] in g
    ensures ok ==> Sorting.Lists<string>(Sorting.StringLess, files, ChangedByAny(g, commits.Keys))
  {
    var paths: set<string>, rest := {}, commits.Keys;
    while rest != {}
      invariant rest <= commits.Keys
      invariant forall h | h in commits && h !in rest :: g[h].parents == [] || g[h].parents[0] in g
      invariant paths == ChangedByAny(g, commits.Keys - rest)
      decreases rest
    {
      var h :| h in rest;
      var before := paths;
      ok, paths := CommitFiles(g, commits[h], paths);
      if !ok {
        return false, [];
      }
      assert commits.Keys - (rest - {h}) == (commits.Keys - rest) + {h};
      assert ChangedByAny(g, (commits.Keys - rest) + {h}) == before + ChangedBy(g, g[h]);
      rest := rest - {h};
    }
    assert commits.Keys - {} == commits.Keys;
    files := Sorting.SortedStrings(paths);
    ok := true;
  }
}
