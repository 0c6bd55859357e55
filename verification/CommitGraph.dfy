/** The commit store and reachability along parent links, shared by the
    branch-scope guard and the land projection. */
module CommitGraph {

  /** A commit hash as it is printed: 40 characters. */
  type Hash = h: string | |h| == 40 witness "0000000000000000000000000000000000000000"

  datatype Mode = Regular | Executable | Symlink | Submodule
  datatype Entry = Entry(mode: Mode, blob: string)
  type Tree = map<string, Entry>

  datatype Commit = Commit(parents: seq<Hash>, tree: Tree, time: int, message: string)

  /** The commits that can be read. A parent may be missing, as in a shallow clone. */
  type Store = map<Hash, Commit>

  ghost function Members(s: seq<Hash>): set<Hash> {
    set h | h in s
  }

  /** `p` starts at a root, follows parent links and never enters `stop`. */
  ghost predicate Walk(g: Store, roots: set<Hash>, stop: set<Hash>, p: seq<Hash>)
    decreases |p|
  {
    && |p| > 0
    && p[|p| - 1] !in stop
    && if |p| == 1 then p[0] in roots
       else
         && p[|p| - 2] in g
         && p[|p| - 1] in g[p[|p| - 2]].parents
         && Walk(g, roots, stop, p[..|p| - 1])
  }

  ghost predicate WalksTo(g: Store, roots: set<Hash>, stop: set<Hash>, p: seq<Hash>, h: Hash) {
    Walk(g, roots, stop, p) && p[|p| - 1] == h
  }

  ghost predicate Reaches(g: Store, roots: set<Hash>, stop: set<Hash>, h: Hash) {
    exists p: seq<Hash> :: WalksTo(g, roots, stop, p, h)
  }

  /** The readable commits reachable from `roots` along paths that avoid `stop`. */
  ghost function Reach(g: Store, roots: set<Hash>, stop: set<Hash>): set<Hash> {
    set h | h in g && Reaches(g, roots, stop, h)
  }

  /** Everything a walk meets can be read. */
  ghost predicate Complete(g: Store, roots: set<Hash>, stop: set<Hash>) {
    forall h: Hash :: Reaches(g, roots, stop, h) ==> h in g
  }

  ghost predicate Ancestor(g: Store, a: Hash, d: Hash) {
    Reaches(g, {d}, {}, a)
  }

  ghost predicate ParentClosed(g: Store, s: set<Hash>) {
    forall h, q: Hash | h in s && h in g && q in g[h].parents :: q in s
  }

  lemma ReachesRoot(g: Store, roots: set<Hash>, stop: set<Hash>, h: Hash)
    requires h in roots && h !in stop
    ensures Reaches(g, roots, stop, h)
  {
    assert WalksTo(g, roots, stop, [h], h);
  }

  lemma ReachesParent(g: Store, roots: set<Hash>, stop: set<Hash>, h: Hash, q: Hash)
    requires Reaches(g, roots, stop, h) && h in g && q in g[h].parents && q !in stop
    ensures Reaches(g, roots, stop, q)
  {
    var p: seq<Hash> :| WalksTo(g, roots, stop, p, h);
    assert (p + [q])[..|p|] == p;
    assert WalksTo(g, roots, stop, p + [q], q);
  }

  /** A set that holds the roots and is closed under parents, up to `stop`,
      holds everything a walk can meet. */
  lemma {:induction false} ClosedSetCovers(g: Store, roots: set<Hash>, stop: set<Hash>, s: set<Hash>, p: seq<Hash>)
    requires Walk(g, roots, stop, p)
    requires forall r | r in roots :: r in s || r in stop
    requires forall h, q: Hash | h in s && h in g && q in g[h].parents :: q in s || q in stop
    ensures p[|p| - 1] in s
    decreases |p|
  {
    if |p| > 1 {
      ClosedSetCovers(g, roots, stop, s, p[..|p| - 1]);
    }
  }

  lemma {:induction false} WalkJoins(g: Store, roots: set<Hash>, h: Hash, p: seq<Hash>)
    requires Reaches(g, roots, {}, h) && Walk(g, {h}, {}, p)
    ensures Reaches(g, roots, {}, p[|p| - 1])
    decreases |p|
  {
    if |p| > 1 {
      WalkJoins(g, roots, h, p[..|p| - 1]);
      ReachesParent(g, roots, {}, p[|p| - 2], p[|p| - 1]);
    }
  }

  lemma AncestorReflexive(g: Store, h: Hash)
    ensures Ancestor(g, h, h)
  {
    ReachesRoot(g, {h}, {}, h);
  }

  lemma AncestorTransitive(g: Store, a: Hash, b: Hash, c: Hash)
    requires Ancestor(g, a, b) && Ancestor(g, b, c)
    ensures Ancestor(g, a, c)
  {
    var p: seq<Hash> :| WalksTo(g, {b}, {}, p, a);
    WalkJoins(g, {c}, b, p);
  }

  ghost predicate Extends(g: Store, g': Store) {
    forall h | h in g :: h in g' && g'[h] == g[h]
  }

  lemma {:induction false} WalkSurvives(g: Store, g': Store, roots: set<Hash>, p: seq<Hash>)
    requires Extends(g, g') && Walk(g, roots, {}, p)
    ensures Walk(g', roots, {}, p)
    decreases |p|
  {
    if |p| > 1 {
      WalkSurvives(g, g', roots, p[..|p| - 1]);
    }
  }

  /** Importing more objects never takes ancestry away. */
  lemma AncestorSurvives(g: Store, g': Store, a: Hash, d: Hash)
    requires Extends(g, g') && Ancestor(g, a, d)
    ensures Ancestor(g', a, d)
  {
    var p: seq<Hash> :| WalksTo(g, {d}, {}, p, a);
    WalkSurvives(g, g', {d}, p);
    assert WalksTo(g', {d}, {}, p, a);
  }

  /** Leaving out a parent-closed set: a walk that ends outside the set never
      entered it, so stopping at the set loses nothing. */
  lemma {:induction false} WalkAvoidsClosedSet(g: Store, roots: set<Hash>, stop: set<Hash>, p: seq<Hash>)
    requires ParentClosed(g, stop)
    requires Walk(g, roots, {}, p) && p[|p| - 1] !in stop
    ensures Walk(g, roots, stop, p)
    decreases |p|
  {
    if |p| > 1 {
      WalkAvoidsClosedSet(g, roots, stop, p[..|p| - 1]);
    }
  }

  lemma {:induction false} WalkForgetsStop(g: Store, roots: set<Hash>, stop: set<Hash>, p: seq<Hash>)
    requires Walk(g, roots, stop, p)
    ensures Walk(g, roots, {}, p) && p[|p| - 1] !in stop
    decreases |p|
  {
    if |p| > 1 {
      WalkForgetsStop(g, roots, stop, p[..|p| - 1]);
    }
  }

  /** Stopping at a parent-closed set is the same as subtracting it. */
  lemma ReachAvoiding(g: Store, roots: set<Hash>, stop: set<Hash>, h: Hash)
    requires ParentClosed(g, stop)
    ensures Reaches(g, roots, stop, h) <==> Reaches(g, roots, {}, h) && h !in stop
  {
    if Reaches(g, roots, stop, h) {
      var p: seq<Hash> :| WalksTo(g, roots, stop, p, h);
      WalkForgetsStop(g, roots, stop, p);
      assert WalksTo(g, roots, {}, p, h);
    }
    if Reaches(g, roots, {}, h) && h !in stop {
      var p: seq<Hash> :| WalksTo(g, roots, {}, p, h);
      WalkAvoidsClosedSet(g, roots, stop, p);
      assert WalksTo(g, roots, stop, p, h);
    }
  }

  /** What a complete walk from any roots finds is closed under parents. */
  lemma ReachIsParentClosed(g: Store, roots: set<Hash>)
    requires Complete(g, roots, {})
    ensures ParentClosed(g, Reach(g, roots, {}))
  {
    forall h, q: Hash | h in Reach(g, roots, {}) && h in g && q in g[h].parents
      ensures q in Reach(g, roots, {})
    {
      ReachesParent(g, roots, {}, h, q);
    }
  }

  /** What the worklist loop keeps: everything found is reachable, and every root
      and every parent of a found commit is found, stopped at or still queued. */
  ghost predicate Exploring(g: Store, roots: set<Hash>, stop: set<Hash>, seen: map<Hash, Commit>, queue: seq<Hash>) {
    && (forall h | h in seen :: h in g && h !in stop && seen[h] == g[h] && Reaches(g, roots, stop, h))
    && (forall h | h in queue :: h in stop || Reaches(g, roots, stop, h))
    && (forall r | r in roots :: r in seen || r in stop || r in queue)
    && (forall h, q: Hash | h in seen && h in g && q in g[h].parents :: q in seen || q in stop || q in queue)
  }

  lemma ExploringVisits(g: Store, roots: set<Hash>, stop: set<Hash>, seen: map<Hash, Commit>, queue: seq<Hash>, h: Hash)
    requires Exploring(g, roots, stop, seen, queue + [h])
    requires h in g && h !in stop
    ensures Exploring(g, roots, stop, seen[h := g[h]], queue + g[h].parents)
  {
    assert h in queue + [h];
    forall q | q in g[h].parents && q !in stop { ReachesParent(g, roots, stop, h, q); }
  }

  lemma ExploredIsReach(g: Store, roots: set<Hash>, stop: set<Hash>, seen: map<Hash, Commit>)
    requires Exploring(g, roots, stop, seen, [])
    ensures forall h: Hash :: Reaches(g, roots, stop, h) <==> h in seen
  {
    forall h: Hash | Reaches(g, roots, stop, h)
      ensures h in seen
    {
      var p: seq<Hash> :| WalksTo(g, roots, stop, p, h);
      ClosedSetCovers(g, roots, stop, seen.Keys, p);
    }
  }

  /** The worklist walk of `reachable`: it fails exactly when some commit on the
      way cannot be read, and otherwise finds exactly what can be reached. */
  method Walked(g: Store, roots: seq<Hash>, stop: map<Hash, Commit>) returns (ok: bool, seen: map<Hash, Commit>)
    ensures ok <==> Complete(g, Members(roots), stop.Keys)
    ensures ok ==> seen.Keys == Reach(g, Members(roots), stop.Keys)
    ensures ok ==> forall h | h in seen :: h in g && seen[h] == g[h]
  {
    seen := map[];
    var queue := roots;
    forall r | r in roots && r !in stop { ReachesRoot(g, Members(roots), stop.Keys, r); }
    while |queue| > 0
      invariant Exploring(g, Members(roots), stop.Keys, seen, queue)
      decreases g.Keys - seen.Keys, |queue|
    {
      var h := queue[|queue| - 1];
      assert queue == queue[..|queue| - 1] + [h];
      queue := queue[..|queue| - 1];
      if h in seen || h in stop {
        continue;
      }
      if h !in g {
        return false, map[];
      }
      ExploringVisits(g, Members(roots), stop.Keys, seen, queue, h);
      seen := seen[h := g[h]];
      queue := queue + g[h].parents;
    }
    assert queue == [];
    ExploredIsReach(g, Members(roots), stop.Keys, seen);
    ok := true;
  }

  lemma ExploringSwaps(g: Store, roots: set<Hash>, stop: set<Hash>, seen: map<Hash, Commit>, some: seq<Hash>,
                       more: seq<Hash>)
    requires Exploring(g, roots, stop, seen, some + more)
    ensures Exploring(g, roots, stop, seen, more + some)
  {
    hide Reaches;
    forall h: Hash ensures h in some + more <==> h in more + some {
    }
  }

  /** The walk behind `IsAncestor`: depth first along parents, ending as soon as
      `a` is met. It may answer over a history it could not read to the end. */
  method Found(g: Store, a: Hash, d: Hash) returns (ok: bool, yes: bool)
    requires a in g
    ensures ok ==> (yes <==> Ancestor(g, a, d))
    ensures !(ok && yes) ==> (ok <==> Complete(g, {d}, {}))
  {
    hide Reaches;
    var seen: map<Hash, Commit>, queue := map[], [d];
    ReachesRoot(g, {d}, {}, d);
    while queue != []
      invariant Exploring(g, {d}, {}, seen, queue) && a !in seen
      decreases g.Keys - seen.Keys, |queue|
    {
      var h, rest := queue[0], queue[1..];
      assert queue == [h] + rest;
      ExploringSwaps(g, {d}, {}, seen, [h], rest);
      if h in seen {
        queue := rest;
        continue;
      }
      if h !in g {
        return false, false;
      }
      if h == a {
        return true, true;
      }
      ExploringVisits(g, {d}, {}, seen, rest, h);
      seen, queue := seen[h := g[h]], g[h].parents + rest;
      ExploringSwaps(g, {d}, {}, seen, rest, g[h].parents);
    }
    ExploredIsReach(g, {d}, {}, seen);
    return true, false;
  }
}
