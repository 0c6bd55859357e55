/** What a check makes of a host that an interrupted land or check left behind. */
module LandRecovery {
  import opened CommitGraph
  import opened Worktree
  import opened LandModel
  import opened LandSpec

  // ----- stopped again and again -----

  /** Checks that were all stopped, each taking up what the one before it left. */
  ghost predicate StoppedChecks(s: seq<State>) {
    |s| > 0 && s[0].ledger != [] && forall i | 0 <= i < |s| - 1 :: Checked(s[i], Stopped, s[i + 1])
  }

  /** The same from a host on which nothing stands in the way of the first. */
  ghost predicate Attempts(s: seq<State>) {
    StoppedChecks(s) && Passes(s[0], Expected(s[0]))
  }

  /** The stop fell inside the replacement of a file. */
  ghost predicate StoppedInside(a: State, target: Hash, b: State) {
    exists halt, way ::
      HaltedAt(a, target, b, halt, way) && Inside(halt, a.commits[a.tip].tree, a.commits[target].tree)
  }

  /** What has been written is in the way of a path of the other tree. */
  ghost predicate InTheWay(a: State, target: Hash, b: State) {
    && a.tip in a.commits && target in a.commits && b.tip == a.tip
    && !AllAccessible(b.work, a.commits[a.tip].tree, a.commits[target].tree)
  }

  /** A removal through a link took a file that the branch and the target have. */
  ghost predicate TookAFile(a: State, target: Hash, b: State) {
    b.tip in a.commits && target in a.commits &&
    exists p | p in a.commits[b.tip].tree && p in a.commits[target].tree :: p !in b.work.files && Slipping(a, target, p)
  }

  ghost predicate WedgedBy(a: State, target: Hash, b: State) {
    StoppedInside(a, target, b) || InTheWay(a, target, b) || TookAFile(a, target, b)
  }

  /** The last attempt stopped where no other one can take it up. */
  ghost predicate Wedged(s: seq<State>)
    requires |s| > 0 && s[0].ledger != []
  {
    |s| > 1 && WedgedBy(s[|s| - 2], Expected(s[0]), s[|s| - 1])
  }

  ghost predicate Clashing(s: State, target: Hash) {
    s.tip in s.commits && target in s.commits && Clash(s.commits[s.tip].tree, s.commits[target].tree)
  }

  lemma HaltBlocksIffWedged(a: State, target: Hash, b: State, halt: Halt, way: Disk)
    requires Passes(a, target) && HaltedAt(a, target, b, halt, way)
    ensures Blocked(b, target) <==>
            || Inside(halt, a.commits[a.tip].tree, a.commits[target].tree)
            || InTheWay(a, target, b) || TookAFile(a, target, b)
    ensures InTheWay(a, target, b) ==> Clashing(a, target)
  {
    hide Reaches, Clash, AllSettled, AllAccessible, Interrupted, Inside, Slippery;
    var old_, tree := a.commits[a.tip].tree, a.commits[target].tree;
    ResumesUnlessHit(a.work, b.work, old_, tree, halt, way);
  }

  lemma MoveBlocksIffWedged(a: State, target: Hash, b: State)
    requires Passes(a, target) && MovedTo(a, target, b) && a.tip != target
    ensures Blocked(b, target) <==> TookAFile(a, target, b)
    ensures !StoppedInside(a, target, b) && !InTheWay(a, target, b)
  {
    hide Reaches, Clash, AllSettled, AllAccessible, Interrupted, Inside, Slippery, Written;
    WrittenHoldsUnlessHit(a.work, b.work, a.commits[a.tip].tree, a.commits[target].tree);
  }

  /** After one stop: the next attempt is blocked if and only if the stop fell inside
      the replacement of a file, what was written is in the way of a path, or a
      removal through a link took a file. */
  lemma StopBlocksIffWedged(a: State, target: Hash, b: State)
    requires Published(a, target, Stopped, b)
    ensures b == a.(tip := b.tip, work := b.work) && (b.tip == a.tip || b.tip == target)
    ensures b.tip in b.commits && Ancestor(b.commits, b.tip, target)
    ensures Blocked(b, target) <==> WedgedBy(a, target, b)
    ensures InTheWay(a, target, b) ==> Clashing(a, target)
  {
    hide Reaches, Clash, AllSettled, AllAccessible, Interrupted, Inside, Written, Blocked, InTheWay, TookAFile,
         Clashing;
    AncestorReflexive(a.commits, target);
    if MovedTo(a, target, b) && a.tip == target {
      WrittenIsInterrupted(a.work, b.work, a.commits[a.tip].tree, a.commits[target].tree);
      assert HaltedAt(a, target, b, Between, Projected(a.work, a.commits[a.tip].tree, a.commits[target].tree));
    }
    if halt, way :| HaltedAt(a, target, b, halt, way) {
      HaltBlocksIffWedged(a, target, b, halt, way);
      forall h, w | HaltedAt(a, target, b, h, w) { HaltBlocksIffWedged(a, target, b, h, w); }
    } else {
      MoveBlocksIffWedged(a, target, b);
    }
  }

  // ----- where attempts end -----

  lemma RewrittenIsSpared(before: Disk, work: Disk, old_: Tree, target: Tree)
    requires Spared(Projected(before, old_, target), work, old_, target)
    ensures Spared(Projected(before, old_, target), Projected(work, target, target), old_, target)
  {
    hide Slippery, DirsOf;
  }

  /** A stop changes nothing about where a finished publication ends, except for what
      removals through links have hit already. */
  lemma StopKeepsTheEnd(a: State, target: Hash, b: State)
    requires a.ledger != [] && Expected(a) == target && Published(a, target, Stopped, b)
    ensures b.tip in b.commits && b.ledger == a.ledger && Expected(b) == target
    ensures SparedBy(a, target, Finished(a, target), Finished(b, target))
  {
    hide Reaches, Projected, Clash, AllSettled, Midway, Spared, Rooted, Undercut;
    var old_, tree := a.commits[a.tip].tree, a.commits[target].tree;
    if halt, way :| HaltedAt(a, target, b, halt, way) {
      ProjectedAgain(a.work, way, old_, tree, halt);
      SparedProjects(way, b.work, old_, tree);
    } else {
      RewrittenIsSpared(a.work, b.work, old_, tree);
    }
    GoalStays(a, b);
    MarkedLooksAtNoFiles(Moved(a, target), Moved(b, target));
  }

  /** What was spared from one attempt to the next was spared from the first. */
  lemma SparedFromTheFirst(a: State, goal: Hash, b: State, whole: State, x: State, y: State)
    requires b.commits == a.commits && (b.tip == a.tip || b.tip == goal)
    requires SparedBy(a, goal, whole, x) && SparedBy(b, goal, x, y)
    ensures SparedBy(a, goal, whole, y)
  {
    hide Spared, Slippery;
    var old_, tree := a.commits[a.tip].tree, a.commits[goal].tree;
    if b.tip == goal {
      NothingSlipsOverItself(tree);
      SparedWhereNothingSlips(x.work, y.work, tree, tree);
    } else {
      SparedTransitive(whole.work, x.work, y.work, old_, tree);
    }
  }

  lemma {:induction false} AttemptsKeepTheEnd(s: seq<State>, k: nat)
    requires Attempts(s) && k < |s|
    ensures var goal := Expected(s[0]);
            && s[k] == s[0].(tip := s[k].tip, work := s[k].work) && (s[k].tip == s[0].tip || s[k].tip == goal)
            && s[k].tip in s[k].commits && goal in s[0].commits && Expected(s[k]) == goal
            && SparedBy(s[0], goal, Finished(s[0], goal), Finished(s[k], goal))
            && (k > 0 ==> Published(s[k - 1], goal, Stopped, s[k]))
  {
    hide Published, Finished, Expected, Readable, Ancestor, Spared;
    var goal := Expected(s[0]);
    if k > 0 {
      AttemptsKeepTheEnd(s, k - 1);
      assert Checked(s[k - 1], Stopped, s[k]);
      StopBlocksIffWedged(s[k - 1], goal, s[k]);
      StopKeepsTheEnd(s[k - 1], goal, s[k]);
      SparedFromTheFirst(s[0], goal, s[k - 1], Finished(s[0], goal), Finished(s[k - 1], goal), Finished(s[k], goal));
    } else {
      SparedItself(Finished(s[0], goal).work, s[0].commits[s[0].tip].tree, s[0].commits[goal].tree);
    }
  }

  /** Recovery, exactly. However often a publication is stopped and taken up again,
      the next check meets a conflict if and only if the last stop fell inside the
      replacement of a file, left something in the way of a path, or came after a
      removal through a link had taken a file. A check that meets one changes nothing.
      One that is done ends as an uninterrupted publication should, except for what
      removals through links hit; without such links that is exactly the same state,
      the worktree included. */
  lemma RetriesConverge(s: seq<State>, out: Outcome, c: State)
    requires Attempts(s) && Checked(s[|s| - 1], out, c)
    ensures var z, goal := s[|s| - 1], Expected(s[0]);
            && var legible := Readable(z.commits, z.tip) && Readable(z.commits, s[0].ledger[|s[0].ledger| - 1].commit);
            && (out != Refused(Busy) && legible ==> (out == Refused(Conflict) <==> Wedged(s)))
            && (out.Refused? ==> out.why in {Busy, Unreadable, Conflict, ReadBack})
            && (out == Refused(Unreadable) ==> !legible)
            && (out == Refused(ReadBack) ==> exists v :: Slipping(s[0], goal, v))
            && (Wedged(s) ==> out.Refused? && c == z)
            && (out.Refused? && legible && out.why != ReadBack ==> c == z)
    ensures var goal := Expected(s[0]);
            out.Done? ==>
              && goal in s[0].commits && SparedBy(s[0], goal, Finished(s[0], goal), c)
              && ((forall v :: !Slipping(s[0], goal, v)) ==> c == Finished(s[0], goal))
  {
    hide Reaches, Complete, Finished, Moved, Blocked, UnderWay, WedgedBy, Slippery, Spared, Intact;
    var z, goal := s[|s| - 1], Expected(s[0]);
    AttemptsKeepTheEnd(s, |s| - 1);
    if |s| > 1 {
      StopBlocksIffWedged(s[|s| - 2], goal, z);
    }
    assert Blocked(z, goal) <==> Wedged(s);
    hide Expected, Wedged;
    if out == Refused(ReadBack) {
      ReadBackNeedsALink(s[0], z, goal, c);
    }
    if out.Done? {
      DoneEndsTheSame(s[0], z, goal, c);
    }
  }

  lemma ReadBackNeedsALink(a: State, z: State, goal: Hash, c: State)
    requires z.commits == a.commits && a.tip in a.commits && (z.tip == a.tip || z.tip == goal)
    requires Published(z, goal, Refused(ReadBack), c)
    ensures exists v :: Slipping(a, goal, v)
  {
    hide Reaches, Slippery, AllSettled, Written, Holds;
    var old_, tree := z.commits[z.tip].tree, z.commits[goal].tree;
    WrittenMayAdvance(z.work, c.work, old_, tree);
    NothingSlipsOverItself(tree);
    var v :| Slippery(old_, tree, v);
    assert Slipping(a, goal, v);
  }

  lemma DoneEndsTheSame(a: State, z: State, goal: Hash, c: State)
    requires z.commits == a.commits && a.tip in a.commits && z.tip in z.commits && goal in a.commits
    requires (z.tip == a.tip || z.tip == goal) && SparedBy(a, goal, Finished(a, goal), Finished(z, goal))
    requires Published(z, goal, Done, c)
    ensures SparedBy(a, goal, Finished(a, goal), c)
    ensures (forall v :: !Slipping(a, goal, v)) ==> c == Finished(a, goal)
  {
    hide Published, Finished, Slippery, Spared;
    DoneIsFinished(z, goal, c);
    SparedFromTheFirst(a, goal, z, Finished(a, goal), Finished(z, goal), c);
    if forall v :: !Slipping(a, goal, v) {
      var old_, tree := a.commits[a.tip].tree, a.commits[goal].tree;
      assert forall v :: Slippery(old_, tree, v) ==> Slipping(a, goal, v);
      SparedWhereNothingSlips(Finished(a, goal).work, c.work, old_, tree);
    }
  }

  /** A check with nothing left to do is an attempt like any other: it rewrites every
      file, so stopping it can wedge the host as well. */
  lemma QuietIsAnAttempt(a: State)
    requires Quiet(a)
    ensures Attempts([a])
  {
    hide Reaches, Holds, DirsOf, NothingPendingOnLineage;
    QuietPasses(a);
  }

  /** No stop is a figment. From any host on which nothing stands in the way of a
      check, the removal of any file that both trees have is one of the code's own
      steps, and after a stop right there every check is refused. */
  lemma AnyCommonFileHasAGap(a: State, p: string, out: Outcome, c: State)
    requires a.ledger != [] && !a.locked && Passes(a, Expected(a)) && p in a.work.files
    requires p in a.commits[a.tip].tree && p in a.commits[Expected(a)].tree
    ensures var b := a.(work := a.work.(files := a.work.files - {p}));
            && Vacates(a.(locked := true), b.(locked := true), Expected(a), p)
            && Checked(a, Stopped, b) && Wedged([a, b])
            && (Checked(b, out, c) ==> out.Refused? && c == b)
  {
    hide Reaches, Expected, DirsOf, Accessible, AllAccessible, Spared;
    var b := a.(work := a.work.(files := a.work.files - {p}));
    assert Settled(a.work, a.commits[a.tip].tree, a.commits[Expected(a)].tree, p);
    SparedItself(b.work, a.commits[a.tip].tree, a.commits[Expected(a)].tree);
    assert HaltedAt(a, Expected(a), b, Cleared(p), b.work);
    StaysWedged(a, b, out, c);
  }

  /** The same for a write that breaks off and leaves neither version of the file. */
  lemma AnyWriteCanTear(a: State, p: string, left: Entry, out: Outcome, c: State)
    requires a.ledger != [] && !a.locked && Passes(a, Expected(a)) && p !in a.work.files && Parents(p) <= a.work.dirs
    requires p in a.commits[Expected(a)].tree && Tearable(left, a.commits[Expected(a)].tree[p])
    requires Inside(Torn(p, left), a.commits[a.tip].tree, a.commits[Expected(a)].tree)
    ensures var b := a.(work := a.work.(files := a.work.files[p := left]));
            && Fills(a.(locked := true), b.(locked := true), Expected(a), p, left)
            && Checked(a, Stopped, b) && Wedged([a, b])
            && (Checked(b, out, c) ==> out.Refused? && c == b)
  {
    hide Reaches, Expected, DirsOf, Parents, ValidPath, Spared;
    var b := a.(work := a.work.(files := a.work.files[p := left]));
    SparedItself(b.work, a.commits[a.tip].tree, a.commits[Expected(a)].tree);
    assert HaltedAt(a, Expected(a), b, Torn(p, left), b.work);
    StaysWedged(a, b, out, c);
  }

  lemma StaysWedged(a: State, b: State, out: Outcome, c: State)
    requires a.ledger != [] && Passes(a, Expected(a)) && Checked(a, Stopped, b) && StoppedInside(a, Expected(a), b)
    ensures Wedged([a, b]) && (Checked(b, out, c) ==> out.Refused? && c == b)
  {
    hide Expected, Published, Passes, StoppedInside, InTheWay, TookAFile, Checked, Finished, Slipping;
    var s := [a, b];
    assert Attempts(s);
    if Checked(b, out, c) {
      RetriesConverge(s, out, c);
    }
  }

  /** The remedy the refusal prints is enough: with the one file the stop fell into
      put back or moved away, nothing stands in the way of the next check, which
      can still end only where the uninterrupted one would have ended. */
  lemma RemedyUnwedges(a: State, b: State, halt: Halt, way: Disk)
    requires a.ledger != [] && Published(a, Expected(a), Stopped, b) && HaltedAt(a, Expected(a), b, halt, way)
    requires Inside(halt, a.commits[a.tip].tree, a.commits[Expected(a)].tree) && !InTheWay(a, Expected(a), b)
    ensures var again := b.(work := Remedied(b.work, b.commits[b.tip].tree, halt.path));
            Attempts([again]) && Expected(again) == Expected(a)
              && Finished(again, Expected(a)) == Finished(a, Expected(a))
  {
    hide Reaches, DirsOf, Accessible, Settled, Midway, Projected, Clash, Spared;
    var old_, tree := a.commits[a.tip].tree, a.commits[Expected(a)].tree;
    var again := b.(work := Remedied(b.work, b.commits[b.tip].tree, halt.path));
    assert halt.path in tree by { HaltIsInTarget(a.work, b.work, old_, tree, halt); }
    RemedyResumes(a.work, b.work, old_, tree, halt);
    GoalStays(a, again);
    ProjectedAgain(a.work, b.work, old_, tree, halt);
    RemedyIsOverwritten(b.work, old_, tree, halt.path);
  }

  lemma HaltIsInTarget(before: Disk, work: Disk, old_: Tree, tree: Tree, halt: Halt)
    requires Midway(before, work, old_, tree, halt) && !halt.Between?
    ensures halt.path in tree
  {
  }

  lemma RemedyIsOverwritten(work: Disk, old_: Tree, tree: Tree, p: string)
    requires p in tree
    ensures Projected(Remedied(work, old_, p), old_, tree) == Projected(work, old_, tree)
  {
    hide DirsOf;
    assert Projected(Remedied(work, old_, p), old_, tree).files == Projected(work, old_, tree).files;
  }

  /** A file of the target that is undercut, and is not yet there for good. */
  ghost predicate Undelivered(a: State, z: State, goal: Hash, q: string) {
    && a.tip in a.commits && goal in a.commits && Undercut(a.commits[a.tip].tree, a.commits[goal].tree, q)
    && (z.tip == a.tip || (z.tip == goal && q !in z.work.files && Slipping(a, goal, q)))
  }

  lemma UndercutStays(a: State, z: State, goal: Hash, q: string, out: Outcome, c: State)
    requires z.commits == a.commits && Undelivered(a, z, goal, q) && Published(z, goal, out, c)
    ensures !out.Done? && Undelivered(a, c, goal, q)
  {
    hide Reaches, Clash, AllSettled, Interrupted, Slippery, Accessible, Parents;
    var tree := a.commits[goal].tree;
    if z.tip == goal {
      NotUndercutByItself(tree, q);
      MissingIsUnsettled(z.work, tree, q);
    } else if Passes(z, goal) && MovedTo(z, goal, c.(ledger := z.ledger)) {
      WrittenHoldsUnlessHit(z.work, c.work, a.commits[a.tip].tree, tree);
    }
  }

  lemma NotUndercutByItself(tree: Tree, q: string)
    ensures !Undercut(tree, tree, q)
  {
  }

  /** A target is never delivered, however often it is tried, if it has a file below a
      path where the old tip has a file it lacks, or a file that is no link where the
      old tip has a directory with a file it lacks. The branch moves to it only when a
      removal through a link has taken that file. */
  lemma {:induction false} ClashIsNeverDelivered(s: seq<State>, q: string, out: Outcome, c: State)
    requires Attempts(s) && Checked(s[|s| - 1], out, c)
    requires Undelivered(s[0], s[0], Expected(s[0]), q)
    ensures !out.Done? && Undelivered(s[0], c, Expected(s[0]), q)
    decreases |s|
  {
    hide Published, Expected, Passes, Undelivered, Finished, Slipping;
    AttemptsKeepTheEnd(s, |s| - 1);
    if |s| > 1 {
      var before := s[..|s| - 1];
      assert Attempts(before) && Checked(s[|s| - 2], Stopped, s[|s| - 1]);
      ClashIsNeverDelivered(before, q, Stopped, s[|s| - 1]);
    }
    if Published(s[|s| - 1], Expected(s[0]), out, c) {
      UndercutStays(s[0], s[|s| - 1], Expected(s[0]), q, out, c);
    }
  }

  /** After a check that is done, a second one changes nothing and is not refused
      for the state of the worktree, the branch or the ledger. */
  lemma SecondCheckChangesNothing(a: State, b: State, out: Outcome, c: State)
    requires Checked(a, Done, b) && Checked(b, out, c)
    ensures out.Done? ==> c == b
    ensures out.Refused? ==> out.why in {Busy, Unreadable}
  {
    hide Reaches, Complete, Marked, Written, AllSettled, Holds, DirsOf, NothingPendingOnLineage, Interrupted, Projected;
    if a.ledger != [] {
      DoneIsQuiet(a, Expected(a), b);
      QuietPasses(b);
      QuietIsFinished(b);
      if MovedTo(b, b.tip, c.(ledger := b.ledger)) {
        TipIsMovedTo(b, c.(ledger := b.ledger));
      }
    }
  }

  /** A newer native tip is kept: a check never moves the branch off it, whether it
      is done, stopped or refused. */
  lemma NewerNativeTipIsKept(a: State, out: Outcome, b: State)
    requires a.ledger != [] && Checked(a, out, b)
    requires Ancestor(a.commits, a.ledger[|a.ledger| - 1].commit, a.tip)
    ensures b.tip == a.tip
  {
    hide Reaches, Complete, Marked, Written, AllSettled, Interrupted, Holds;
  }

  // ----- a stopped land -----

  /** A land that nothing stands in the way of: the batch is new and linked, the
      tip is an ancestor of its last commit, origins are known, everything can be
      read and no third version of a file is at stake. */
  ghost predicate Smooth(a: State, pool: map<Hash, Commit>, chain: seq<Hash>) {
    && Agree(a.commits, pool) && chain != [] && Linked(pool, chain)
       && (forall h | h in chain :: h in pool && h !in a.commits)
    && Readable(a.commits, a.tip) && Readable(a.commits + pool, chain[|chain| - 1])
    && Passes(Appended(a, pool, chain), chain[|chain| - 1])
  }

  lemma {:induction false} OldWalksStayOld(g: Store, g': Store, t: Hash, p: seq<Hash>)
    requires Extends(g, g') && Readable(g, t) && Walk(g', {t}, {}, p)
    ensures Reaches(g, {t}, {}, p[|p| - 1])
    decreases |p|
  {
    if |p| == 1 {
      ReachesRoot(g, {t}, {}, t);
    } else {
      OldWalksStayOld(g, g', t, p[..|p| - 1]);
      ReachesParent(g, {t}, {}, p[|p| - 2], p[|p| - 1]);
    }
  }

  /** Importing a batch does not put any of it below the old tip. */
  lemma NewIsNotBelow(g: Store, g': Store, t: Hash)
    requires Extends(g, g') && Readable(g, t)
    ensures Readable(g', t) && forall h | h !in g :: !Ancestor(g', h, t)
  {
    forall h: Hash | Ancestor(g', h, t) ensures h in g {
      var p: seq<Hash> :| WalksTo(g', {t}, {}, p, h);
      OldWalksStayOld(g, g', t, p);
    }
  }

  lemma {:induction false} ChainIsBelowLast(g: Store, pool: map<Hash, Commit>, chain: seq<Hash>, i: nat)
    requires Linked(pool, chain) && i < |chain|
    requires forall h | h in pool :: h in g && g[h] == pool[h]
    ensures Ancestor(g, chain[i], chain[|chain| - 1])
    decreases |chain| - i
  {
    if i == |chain| - 1 {
      AncestorReflexive(g, chain[i]);
    } else {
      ChainIsBelowLast(g, pool, chain, i + 1);
      AncestorReflexive(g, chain[i + 1]);
      ReachesParent(g, {chain[i + 1]}, {}, chain[i + 1], chain[i]);
      AncestorTransitive(g, chain[i], chain[i + 1], chain[|chain| - 1]);
    }
  }

  /** A smooth land that does not get to its end after the append, stopped or without
      a worktree, is the first of a series of attempts. */
  lemma StoppedLandIsAnAttempt(a: State, pool: map<Hash, Commit>, chain: seq<Hash>, bound: bool, how: Outcome, b: State)
    requires Smooth(a, pool, chain) && Landed(a, pool, chain, bound, how, b) && |b.ledger| > |a.ledger| && !how.Done?
    ensures var s := Appended(a, pool, chain).(locked := false);
            && Expected(s) == chain[|chain| - 1] && Readable(s.commits, s.tip)
            && Passes(s, Expected(s)) && Checked(s, Stopped, b.(locked := false))
  {
    hide Reaches, Complete, AllSettled, Midway, Spared, Written, Marked, Linked, Holds;
    var s, last := Appended(a, pool, chain), chain[|chain| - 1];
    var u := s.(locked := false);
    assert last in chain;
    assert u.ledger[|u.ledger| - 1].commit == last;
    NewIsNotBelow(a.commits, s.commits, a.tip);
    if b == s {
      SameIsMidway(s.work, s.commits[s.tip].tree, s.commits[last].tree);
      SparedItself(s.work, s.commits[s.tip].tree, s.commits[last].tree);
      assert HaltedAt(u, last, u, Between, u.work);
    } else {
      PublishedUnlocked(s, last, how, b, false);
    }
  }

  lemma BatchIsDelivered(a: State, pool: map<Hash, Commit>, chain: seq<Hash>, m: State)
    requires chain != [] && Linked(pool, chain)
    requires m.commits == a.commits + pool && m.tip == chain[|chain| - 1] && m.ledger == a.ledger + Rows(chain)
    ensures |Marked(m)| == |a.ledger| + |chain|
    ensures forall n | |a.ledger| <= n < |Marked(m)| :: Marked(m)[n] == Row(chain[n - |a.ledger|], FromLand, Delivered)
  {
    hide Reaches, Linked;
    forall n | |a.ledger| <= n < |m.ledger|
      ensures Marked(m)[n] == Row(chain[n - |a.ledger|], FromLand, Delivered)
    {
      ChainIsBelowLast(m.commits, pool, chain, n - |a.ledger|);
      assert m.ledger[n] == Row(chain[n - |a.ledger|], FromLand, Pending);
      assert Deliverable(m, m.ledger[n]);
    }
  }

  /** A smooth land that did not get to its end, and any number of stopped checks
      after it: the next check is refused if and only if the last stop wedged the
      host. When it is done, the host is as the uninterrupted land would have left
      it, with the branch at the landed commit and every row delivered. */
  lemma StoppedLandRecovers(a: State, pool: map<Hash, Commit>, chain: seq<Hash>, bound: bool, how: Outcome, b: State,
                            s: seq<State>, out: Outcome, c: State)
    requires Smooth(a, pool, chain) && Landed(a, pool, chain, bound, how, b) && |b.ledger| > |a.ledger| && !how.Done?
    requires StoppedChecks(s) && s[0] == b.(locked := false) && Checked(s[|s| - 1], out, c)
    ensures var start, last := Appended(a, pool, chain).(locked := false), chain[|chain| - 1];
            && Attempts([start] + s)
            && (out != Refused(Busy) ==> (out == Refused(Conflict) <==> Wedged([start] + s)))
            && (out.Refused? ==> out.why in {Busy, Conflict, ReadBack} && (out.why != ReadBack ==> c == s[|s| - 1]))
            && (out == Refused(ReadBack) ==> exists v :: Slipping(start, last, v))
            && (out.Done? ==>
                  && SparedBy(start, last, Finished(start, last), c)
                  && ((forall v :: !Slipping(start, last, v)) ==> c == Finished(start, last))
                  && |c.ledger| == |a.ledger| + |chain|
                  && forall n | |a.ledger| <= n < |c.ledger| ::
                       c.ledger[n] == Row(chain[n - |a.ledger|], FromLand, Delivered))
  {
    hide Ancestor, Complete, Passes, Published, Landed, Linked, Marked, Wedged, Projected, Slipping, Spared;
    var start := Appended(a, pool, chain).(locked := false);
    StoppedLandIsAnAttempt(a, pool, chain, bound, how, b);
    hide Expected;
    var t := [start] + s;
    forall i | 0 <= i < |t| - 1 ensures Checked(t[i], Stopped, t[i + 1]) {
      if i > 0 { assert Checked(s[i - 1], Stopped, s[i]); }
    }
    assert Attempts(t);
    RetriesConverge(t, out, c);
    AttemptsKeepTheEnd(t, |t| - 1);
    if out.Done? {
      BatchIsDelivered(a, pool, chain, Moved(start, chain[|chain| - 1]));
    }
  }
}
