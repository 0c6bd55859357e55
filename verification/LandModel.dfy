/** The land projection as a transition system: the host's stores, the single
    effects a land or a check has on them, and what every run keeps. */
module LandModel {
  import opened CommitGraph
  import opened Worktree

  datatype Origin = FromHost | FromLand | UnknownOrigin
  datatype Admission = Pending | Delivered | NoAdmission

  /** A row of the task ledger with its latest admission. */
  datatype Row = Row(commit: Hash, origin: Origin, state: Admission)

  /** One task's view of the host: the object store, the task branch, the native
      worktree, the staged paths, the ledger in position order, and the
      repository lock. */
  datatype State = State(commits: Store, tip: Hash, work: Disk, staged: set<string>, ledger: seq<Row>, locked: bool)

  predicate KnownOrigin(r: Row) {
    || (r.origin == FromHost && r.state == Delivered)
    || (r.origin == FromLand && (r.state == Pending || r.state == Delivered))
  }

  // ----- single effects -----

  ghost predicate Locks(a: State, b: State) {
    !a.locked && b == a.(locked := true)
  }

  ghost predicate Unlocks(a: State, b: State) {
    a.locked && b == a.(locked := false)
  }

  ghost predicate Imports(a: State, b: State, h: Hash, c: Commit) {
    a.locked && (h in a.commits ==> a.commits[h] == c) && b == a.(commits := a.commits[h := c])
  }

  ghost predicate Appends(a: State, b: State, rows: seq<Row>) {
    && a.locked
    && (forall r | r in rows :: r.origin == FromLand && r.state == Pending && r.commit in a.commits)
    && b == a.(ledger := a.ledger + rows)
  }

  /** A directory on the way to a file of the target is made. */
  ghost predicate Makes(a: State, b: State, target: Hash, d: string) {
    && a.locked && target in a.commits && Ancestor(a.commits, a.tip, target)
    && d !in a.work.files && d in DirsOf(a.commits[target].tree)
    && b == a.(work := a.work.(dirs := a.work.dirs + {d}))
  }

  /** Only a version that the old tip or the target records is taken away. */
  ghost predicate Vacates(a: State, b: State, target: Hash, p: string) {
    && a.locked && a.tip in a.commits && target in a.commits && Ancestor(a.commits, a.tip, target)
    && p in a.work.files
    && ((p in a.commits[a.tip].tree && a.work.files[p] == a.commits[a.tip].tree[p])
        || (p in a.commits[target].tree && a.work.files[p] == a.commits[target].tree[p]))
    && b == a.(work := a.work.(files := a.work.files - {p}))
  }

  /** A file is written where there is none, to the end or, as `left`, not. */
  ghost predicate Fills(a: State, b: State, target: Hash, p: string, left: Entry) {
    && a.locked && target in a.commits && Ancestor(a.commits, a.tip, target)
    && Accessible(a.work, p) && Parents(p) <= a.work.dirs
    && p !in a.work.files && p in a.commits[target].tree
    && (left == a.commits[target].tree[p] || Tearable(left, a.commits[target].tree[p]))
    && b == a.(work := a.work.(files := a.work.files[p := left]))
  }

  /** The removal of `p`, which only the old tip has, follows the target's link `q`
      and hits `v`: a file, or a directory that is empty. */
  ghost predicate Slips(a: State, b: State, target: Hash, p: string, q: string, v: string) {
    && a.locked && a.tip in a.commits && target in a.commits && Ancestor(a.commits, a.tip, target)
    && p in a.commits[a.tip].tree && p !in a.commits[target].tree
    && q in Parents(p) && q in a.work.files && a.work.files[q].mode == Symlink
    && q in a.commits[target].tree && a.commits[target].tree[q] == a.work.files[q]
    && Base(v) == Base(p) && (v in a.work.files || v in a.work.dirs) && (v in a.work.dirs ==> Hollow(a.work, v))
    && b == a.(work := Disk(a.work.files - {v}, a.work.dirs - {v}))
  }

  /** The branch moves to a target that is written, unless a link was in the way. */
  ghost predicate Advances(a: State, b: State, target: Hash) {
    && a.locked && a.tip in a.commits && target in a.commits && Ancestor(a.commits, a.tip, target)
    && (Holds(a.work, a.commits[target].tree) || exists v :: Slippery(a.commits[a.tip].tree, a.commits[target].tree, v))
    && b == a.(tip := target)
  }

  ghost predicate Deliverable(s: State, r: Row) {
    r.origin == FromLand && r.state == Pending && Ancestor(s.commits, r.commit, s.tip)
  }

  ghost predicate Delivers(a: State, b: State) {
    && a.locked && |b.ledger| == |a.ledger|
    && (forall n | 0 <= n < |a.ledger| ::
          || b.ledger[n] == a.ledger[n]
          || (Deliverable(a, a.ledger[n]) && b.ledger[n] == a.ledger[n].(state := Delivered)))
    && b == a.(ledger := b.ledger)
  }

  /** What the host does on its own while no land or check holds the lock: edit
      and stage files, and record native commits on top of the tip. */
  ghost predicate Native(a: State, b: State) {
    && !a.locked && !b.locked
    && Extends(a.commits, b.commits) && b.tip in b.commits && Ancestor(b.commits, a.tip, b.tip)
    && |a.ledger| <= |b.ledger|
    && (forall n | 0 <= n < |a.ledger| :: b.ledger[n] == a.ledger[n])
    && (forall n | |a.ledger| <= n < |b.ledger| :: b.ledger[n].origin == FromHost && b.ledger[n].state == Delivered)
  }

  ghost predicate Next(a: State, b: State) {
    || Locks(a, b) || Unlocks(a, b) || Delivers(a, b) || Native(a, b)
    || (exists h, c :: Imports(a, b, h, c))
    || (exists rows :: Appends(a, b, rows))
    || (exists t, p :: Vacates(a, b, t, p))
    || (exists t, d :: Makes(a, b, t, d))
    || (exists t, p, q, v :: Slips(a, b, t, p, q, v))
    || (exists t, p, left :: Fills(a, b, t, p, left))
    || (exists t :: Advances(a, b, t))
  }

  ghost predicate Run(h: seq<State>) {
    |h| > 0 && forall i | 0 <= i < |h| - 1 :: Next(h[i], h[i + 1])
  }

  // ----- what every run keeps -----

  ghost predicate Sound(s: State) {
    && s.tip in s.commits
    && forall r | r in s.ledger && r.origin == FromLand ::
         r.commit in s.commits && (r.state == Delivered ==> Ancestor(s.commits, r.commit, s.tip))
  }

  /** `b` is a later state of the same host: nothing recorded in `a` is lost. */
  ghost predicate Later(a: State, b: State) {
    && Extends(a.commits, b.commits)
    && Ancestor(b.commits, a.tip, b.tip)
    && |a.ledger| <= |b.ledger|
    && (forall n | 0 <= n < |a.ledger| ::
          b.ledger[n] == a.ledger[n] ||
          (a.ledger[n].origin == FromLand && a.ledger[n].state == Pending
            && b.ledger[n] == a.ledger[n].(state := Delivered)))
    && (forall n | |a.ledger| <= n < |b.ledger| :: b.ledger[n].origin != UnknownOrigin)
  }

  lemma LaterTransitive(a: State, b: State, c: State)
    requires Later(a, b) && Later(b, c)
    ensures Later(a, c)
  {
    AncestorSurvives(b.commits, c.commits, a.tip, b.tip);
    AncestorTransitive(c.commits, a.tip, b.tip, c.tip);
  }

  lemma StepIsLater(a: State, b: State)
    requires Next(a, b)
    ensures Later(a, b)
  {
    hide Reaches;
    AncestorReflexive(b.commits, a.tip);
  }

  lemma RowStaysSound(a: State, b: State, r: Row)
    requires Sound(a) && Later(a, b) && r in a.ledger && r.origin == FromLand
    ensures r.commit in b.commits && (r.state == Delivered ==> Ancestor(b.commits, r.commit, b.tip))
  {
    if r.state == Delivered {
      AncestorSurvives(a.commits, b.commits, r.commit, a.tip);
      AncestorTransitive(b.commits, r.commit, a.tip, b.tip);
    }
  }

  lemma StepStaysSound(a: State, b: State)
    requires Sound(a) && Next(a, b)
    ensures Sound(b)
  {
    hide Reaches;
    StepIsLater(a, b);
    forall r | r in a.ledger && r.origin == FromLand { RowStaysSound(a, b, r); }
    forall r | r in b.ledger && r.origin == FromLand
      ensures r.commit in b.commits && (r.state == Delivered ==> Ancestor(b.commits, r.commit, b.tip))
    {
      var n :| 0 <= n < |b.ledger| && b.ledger[n] == r;
      if n < |a.ledger| {
        assert a.ledger[n] in a.ledger;
      }
    }
  }

  /** Safety of whole runs, whatever lands, checks, stops and native work they are
      made of: the tip only ever moves to a descendant, no ledger row is lost or
      changed except from pending to delivered, only land rows are ever so
      delivered, and every delivered land commit is an ancestor of the tip. */
  lemma {:induction false} RunIsSafe(h: seq<State>, i: nat, j: nat)
    requires Run(h) && Sound(h[0]) && i <= j < |h|
    ensures Sound(h[i]) && Sound(h[j]) && Later(h[i], h[j])
    decreases j
  {
    hide Next, Sound, Later;
    if j == 0 {
      LaterReflexive(h[0]);
    } else {
      RunIsSafe(h, 0, j - 1);
      StepStaysSound(h[j - 1], h[j]);
      if i == j {
        LaterReflexive(h[j]);
      } else {
        RunIsSafe(h, i, j - 1);
        StepIsLater(h[j - 1], h[j]);
        LaterTransitive(h[i], h[j - 1], h[j]);
      }
    }
  }

  ghost predicate PendingAt(s: State, n: nat) {
    n < |s.ledger| && s.ledger[n].origin == FromLand && s.ledger[n].state == Pending
  }

  lemma NewRows(a: State, b: State, n: nat)
    requires Next(a, b) && |a.ledger| <= n < |b.ledger|
    ensures PendingAt(b, n) || b.ledger[n].origin == FromHost
  {
    hide Ancestor, Holds, Extends;
    if rows :| Appends(a, b, rows) {
      assert b.ledger[n] == rows[n - |a.ledger|];
    }
  }

  /** A land row that is delivered and was not so when the run began was a
      pending land row in some earlier state of the run. */
  lemma {:induction false} DeliveredWasPending(h: seq<State>, j: nat, n: nat) returns (i: nat)
    requires Run(h) && j < |h| && n < |h[j].ledger|
    requires h[j].ledger[n].origin == FromLand && h[j].ledger[n].state == Delivered
    requires n < |h[0].ledger| ==> h[0].ledger[n].state != Delivered
    ensures i < j && PendingAt(h[i], n) && h[i].ledger[n].commit == h[j].ledger[n].commit
    decreases j
  {
    hide Next, Extends, Ancestor;
    StepIsLater(h[j - 1], h[j]);
    if n >= |h[j - 1].ledger| {
      NewRows(h[j - 1], h[j], n);
    }
    if PendingAt(h[j - 1], n) {
      i := j - 1;
    } else {
      i := DeliveredWasPending(h, j - 1, n);
    }
  }

  lemma LaterReflexive(a: State)
    ensures Later(a, a)
  {
    AncestorReflexive(a.commits, a.tip);
  }

  /** Only a land or a check in progress touches files, and then only a removal through
      a link can take away a version that no commit in the store records. */
  lemma OnlyASlipLosesAVersion(a: State, b: State, v: string)
    requires Next(a, b) && !Native(a, b)
    requires v in a.work.files && (v !in b.work.files || b.work.files[v] != a.work.files[v])
    ensures (exists h :: h in a.commits && v in a.commits[h].tree && a.commits[h].tree[v] == a.work.files[v])
            || exists t, p, q :: Slips(a, b, t, p, q, v)
  {
    hide Reaches, Holds, Slippery, Base, Hollow, Accessible, Parents, DirsOf;
    if t, p, q, u :| Slips(a, b, t, p, q, u) {
      assert u == v;
    }
  }

  // ----- outcomes and ledger marks -----

  datatype Refusal = Busy | Unbound | AmbiguousOrigin | Unreadable | Divergence | Conflict | ReadBack | NotAChain
  datatype Outcome = Done | Stopped | Refused(why: Refusal)

  /** The ledger once every pending land row on the tip's lineage is delivered. */
  ghost function Marked(s: State): seq<Row> {
    seq(|s.ledger|, n requires 0 <= n < |s.ledger| =>
      if Deliverable(s, s.ledger[n]) then s.ledger[n].(state := Delivered) else s.ledger[n])
  }

  ghost predicate NothingPendingOnLineage(s: State) {
    forall r | r in s.ledger :: !Deliverable(s, r)
  }

  lemma MarkedLeavesNothing(s: State)
    ensures NothingPendingOnLineage(s.(ledger := Marked(s)))
  {
  }

  lemma RunExtends(h: seq<State>, s: State)
    requires Run(h) && Next(h[|h| - 1], s)
    ensures Run(h + [s])
  {
    hide Next;
    forall i | 0 <= i < |h + [s]| - 1 ensures Next((h + [s])[i], (h + [s])[i + 1]) {
      if i < |h| - 1 {
        assert Next(h[i], h[i + 1]);
      }
    }
  }

  /** What `Check` publishes: the last ledger commit, or a newer native tip. */
  ghost function Expected(s: State): Hash
    requires s.ledger != []
  {
    var last := s.ledger[|s.ledger| - 1].commit;
    if s.tip != last && Ancestor(s.commits, last, s.tip) then s.tip else last
  }
}
