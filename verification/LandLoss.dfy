/** What a land can take from the host that it should not, and what an abandoned one
    leaves behind. */
module LandLoss {
  import opened CommitGraph
  import opened Worktree
  import opened LandModel
  import opened LandSpec

  // ----- removals through links -----

  lemma ProjectingKeepsUntracked(before: Disk, way: Disk, work: Disk, old_: Tree, target: Tree, halt: Halt, v: string)
    requires Midway(before, way, old_, target, halt) && Spared(way, work, old_, target)
    requires v in before.files && v !in old_ && v !in target
    ensures if v in work.files then work.files[v] == before.files[v] else Slippery(old_, target, v)
  {
    hide Slippery, DirsOf;
    assert Same(before, way, v);
  }

  /** A file that neither the branch nor the target tracks can be taken away by a
      publication if and only if the old tip has a file of that name which the target
      lacks, below a path where the target has a link. */
  lemma UntrackedIsLostIffSlippery(a: State, target: Hash, v: string)
    requires Passes(a, target) && v in a.work.files
    requires v !in a.commits[a.tip].tree && v !in a.commits[target].tree
    ensures (exists out, b :: Published(a, target, out, b) && !Same(a.work, b.work, v)) <==> Slipping(a, target, v)
  {
    hide Reaches, AllSettled, Slippery, Midway, Projected, Holds, Clash, Spared, Rooted, Undercut, Readable;
    var old_, tree := a.commits[a.tip].tree, a.commits[target].tree;
    if out, b :| Published(a, target, out, b) && !Same(a.work, b.work, v) {
      if halt, way :| HaltedAt(a, target, b, halt, way) {
        ProjectingKeepsUntracked(a.work, way, b.work, old_, tree, halt, v);
      } else {
        ProjectedIsMidway(a.work, old_, tree);
        ProjectingKeepsUntracked(a.work, Projected(a.work, old_, tree), b.work, old_, tree, Between, v);
      }
    }
    if Slipping(a, target, v) {
      var way := Projected(a.work, old_, tree);
      ProjectedIsMidway(a.work, old_, tree);
      ProjectedHasTarget(a.work, old_, tree);
      SparedWithout(way, old_, tree, v);
      var b := a.(work := Disk(way.files - {v}, way.dirs));
      assert HaltedAt(a, target, b, Between, way);
      assert Published(a, target, Stopped, b) && !Same(a.work, b.work, v);
    }
  }

  lemma SparedWithout(work: Disk, old_: Tree, target: Tree, v: string)
    requires Slippery(old_, target, v)
    ensures Spared(work, Disk(work.files - {v}, work.dirs), old_, target)
  {
    hide Slippery;
  }

  /** It does happen. The old tip has one file `p`, the target has one link `q` in the
      place of a directory of it, and the host, which has moved that directory away,
      keeps a file `v` of the same name elsewhere. Nothing stands in the way: the link
      is written, the removal of `p` hits `v`, the branch moves, and the land is done. */
  lemma ALinkTakesAFile(a: State, target: Hash, p: string, q: string, v: string)
    requires Passes(a, target) && a.locked && target != a.tip
    requires a.commits[a.tip].tree.Keys == {p} && a.commits[target].tree.Keys == {q} && q in Parents(p)
    requires a.commits[target].tree[q].mode == Symlink && Parents(q) <= a.work.dirs
    requires a.work.files.Keys == {v} && Base(v) == Base(p) && v != p && v !in a.work.dirs
    ensures var linked := a.(work := a.work.(files := a.work.files[q := a.commits[target].tree[q]]));
            && var hit := a.(work := Disk(a.commits[target].tree, a.work.dirs));
            && var moved := hit.(tip := target);
            && var done := moved.(ledger := Marked(moved));
            && Run([a, linked, hit, moved, done]) && Published(a, target, Done, done) && v !in done.work.files
  {
    hide Reaches, ValidPath, Base, Parents, Marked;
    var old_, tree := a.commits[a.tip].tree, a.commits[target].tree;
    var linked := a.(work := a.work.(files := a.work.files[q := tree[q]]));
    var hit := a.(work := Disk(tree, a.work.dirs));
    var moved := hit.(tip := target);
    var done := moved.(ledger := Marked(moved));
    ParentsAreShorter(p, q);
    assert Accessible(a.work, q) && Accessible(a.work, p);
    assert q !in a.work.files.Keys;
    assert Fills(a, linked, target, q, tree[q]);
    assert linked.work.files - {v} == tree && linked.work.dirs - {v} == a.work.dirs;
    assert Slips(linked, hit, target, p, q, v);
    assert Holds(hit.work, tree) by { OnlyFileHolds(hit.work, tree, q); }
    assert Advances(hit, moved, target);
    MarkingDelivers(moved);
    assert Written(a.work, moved.work, old_, tree) by { OnlyLinkIsWritten(a.work, old_, tree, p, q, v); }
    assert MovedTo(a, target, moved);
    var h := [a, linked, hit, moved, done];
    forall i | 0 <= i < |h| - 1 ensures Next(h[i], h[i + 1]) {
      assert i == 0 || i == 1 || i == 2 || i == 3;
    }
  }

  lemma ParentsAreShorter(p: string, q: string)
    requires q in Parents(p)
    ensures |q| < |p| && q !in Parents(q) && p !in Parents(q)
  {
  }

  lemma OnlyFileHolds(work: Disk, tree: Tree, q: string)
    requires tree.Keys == {q} && work.files == tree && ValidPath(q) && q !in work.dirs
    ensures Holds(work, tree)
  {
  }

  lemma MarkingDelivers(s: State)
    requires s.locked
    ensures Delivers(s, s.(ledger := Marked(s)))
  {
    hide Reaches;
  }

  lemma OnlyLinkIsWritten(before: Disk, old_: Tree, tree: Tree, p: string, q: string, v: string)
    requires old_.Keys == {p} && tree.Keys == {q} && before.files.Keys == {v} && v !in before.dirs
    requires q in Parents(p) && p !in Parents(q) && q !in Parents(q) && q != v
    requires tree[q].mode == Symlink && Parents(q) <= before.dirs && Base(v) == Base(p) && v != p
    ensures Written(before, Disk(tree, before.dirs), old_, tree)
  {
    hide Parents, Base;
    assert p != q;
    assert DirsOf(tree) == Parents(q);
    assert Slippery(old_, tree, v);
    assert Projected(before, old_, tree).files == before.files + tree;
  }

  // ----- what a land never writes -----

  /** What a publication has written is in the target. */
  lemma NewFilesAreTheTargets(a: State, target: Hash, out: Outcome, b: State, p: string)
    requires Published(a, target, out, b) && p in b.work.files && !Same(a.work, b.work, p)
    ensures Passes(a, target) && p in a.commits[target].tree && ValidPath(p)
  {
    TargetsAreValid(a, target);
    hide Reaches, AllSettled, Slippery, Holds, Clash, Rooted, Undercut, Readable, DirsOf;
    var old_, tree := a.commits[a.tip].tree, a.commits[target].tree;
    if halt, way :| HaltedAt(a, target, b, halt, way) {
      assert p in way.files && way.files[p] == b.work.files[p];
    } else {
      assert p in Projected(a.work, old_, tree).files;
    }
  }

  lemma TargetsAreValid(a: State, target: Hash)
    ensures Passes(a, target) ==> forall p | p in a.commits[target].tree :: ValidPath(p)
  {
    hide Reaches, ValidPath;
    if Passes(a, target) {
      forall p | p in a.commits[target].tree ensures ValidPath(p) { assert Accessible(a.work, p); }
    }
  }

  /** No land, whatever the guest's tree holds and wherever it stops, writes a file with
      an absolute path or with a component `..`, `.git` or `.mgit` in its path: what is
      there of such a path afterwards was there before. */
  lemma ForbiddenPathsStayOut(a: State, target: Hash, out: Outcome, b: State, pre: string, c: string, post: string)
    requires Published(a, target, out, b)
    requires (HasComponent(pre, c, post) && (c == ".." || c == ".git" || c == ".mgit")) || "/" <= pre + c + post
    ensures pre + c + post in b.work.files ==> Same(a.work, b.work, pre + c + post)
  {
    hide Published, Passes, ValidPath;
    var p := pre + c + post;
    ValidPathIs(p);
    assert !ValidPath(p);
    if p in b.work.files && !Same(a.work, b.work, p) {
      NewFilesAreTheTargets(a, target, out, b, p);
    }
  }

  // ----- a land that gives way to another -----

  /** What a stop had touched by the time it fell: a file is at the first target's
      version, or is gone, or is the one the stop fell into. */
  lemma TouchedIs(before: Disk, work: Disk, old_: Tree, first: Tree, halt: Halt, way: Disk, p: string)
    requires Interrupted(before, work, old_, first, halt, way) && !Same(before, work, p)
    ensures || (p in first && p in work.files && work.files[p] == first[p])
            || (p in old_ && p !in first && p !in work.files)
            || (p !in work.files && Slippery(old_, first, p)) || At(halt, p)
  {
    hide Slippery, DirsOf;
  }

  /** A stopped land of one target followed by a land of another, exactly. Where
      nothing stood in the way of the other before the first began, it is blocked if
      and only if a path it needs is obstructed or a file the stop had touched is now
      in neither its version nor the old tip's. When it ends, a path differs from what
      it would have been if and only if the stop had touched it and neither the old tip
      nor the other target has it: what the first added and the other dropped stays. */
  lemma GivingWay(a: State, first: Hash, b: State, halt: Halt, way: Disk, d: State, other: Hash)
    requires HaltedAt(a, first, b, halt, way)
    requires d.tip == a.tip && d.work == b.work && d.staged == {} && Extends(a.commits, d.commits) && other in d.commits
    requires AllSettled(a.work, d.commits[a.tip].tree, d.commits[other].tree)
    ensures var old_, tree := d.commits[a.tip].tree, d.commits[other].tree;
            && (Blocked(d, other) <==>
                || !AllAccessible(b.work, old_, tree)
                || exists p | p in old_ || p in tree :: !Same(a.work, b.work, p) && !Settled(b.work, old_, tree, p))
            && forall p :: !Same(Projected(a.work, old_, tree), Finished(d, other).work, p) <==>
                           !Same(a.work, b.work, p) && p !in old_ && p !in tree
  {
    hide Interrupted, Accessible, DirsOf, Marked;
    var old_, tree := d.commits[a.tip].tree, d.commits[other].tree;
    forall p | (p in old_ || p in tree) && Same(a.work, b.work, p)
      ensures Settled(b.work, old_, tree, p)
    {
      assert Settled(a.work, old_, tree, p);
    }
  }
}
