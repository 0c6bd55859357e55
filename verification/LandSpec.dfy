/** What a publication, a check and a land do to the host, outcome by outcome. */
module LandSpec {
  import opened CommitGraph
  import opened Worktree
  import opened LandModel

  // ----- publishing a commit -----

  ghost predicate Readable(g: Store, h: Hash) {
    h in g && Complete(g, {h}, {})
  }

  /** Something is staged, a path cannot be used, or a version other than the old
      tip's or the target's is at stake. */
  ghost predicate Blocked(s: State, target: Hash) {
    || s.staged != {}
    || (s.tip in s.commits && target in s.commits
        && !AllSettled(s.work, s.commits[s.tip].tree, s.commits[target].tree))
  }

  /** Nothing stands in the way of publishing the target. */
  ghost predicate Passes(s: State, target: Hash) {
    && (forall r | r in s.ledger :: KnownOrigin(r))
    && s.tip in s.commits && target in s.commits && Ancestor(s.commits, s.tip, target) && !Blocked(s, target)
  }

  /** The host once the target is written, as it should be, and the branch is at it. */
  ghost function Moved(s: State, target: Hash): State
    requires s.tip in s.commits && target in s.commits
  {
    s.(tip := target, work := Projected(s.work, s.commits[s.tip].tree, s.commits[target].tree))
  }

  /** The host once the publication is recorded too. */
  ghost function Finished(s: State, target: Hash): State
    requires s.tip in s.commits && target in s.commits
  {
    Moved(s, target).(ledger := Marked(Moved(s, target)))
  }

  /** A path that publishing the target may hit through a link. */
  ghost predicate Slipping(s: State, target: Hash, v: string) {
    s.tip in s.commits && target in s.commits && Slippery(s.commits[s.tip].tree, s.commits[target].tree, v)
  }

  /** `b` is `whole`, except for what publishing the target from `a` may have hit. */
  ghost predicate SparedBy(a: State, target: Hash, whole: State, b: State) {
    && a.tip in a.commits && target in a.commits && b == whole.(work := b.work)
    && Spared(whole.work, b.work, a.commits[a.tip].tree, a.commits[target].tree)
  }

  /** The branch has not moved and the files are under way, up to `halt`. */
  ghost predicate HaltedAt(a: State, target: Hash, b: State, halt: Halt, way: Disk) {
    && a.tip in a.commits && target in a.commits && b == a.(work := b.work)
    && Interrupted(a.work, b.work, a.commits[a.tip].tree, a.commits[target].tree, halt, way)
  }

  /** The branch has moved and everything is written, as far as it was not hit. */
  ghost predicate MovedTo(a: State, target: Hash, b: State) {
    && a.tip in a.commits && target in a.commits && b == a.(tip := target, work := b.work)
    && Written(a.work, b.work, a.commits[a.tip].tree, a.commits[target].tree)
  }

  ghost predicate Intact(s: State) {
    s.tip in s.commits && Holds(s.work, s.commits[s.tip].tree)
  }

  /** A stopped publication: under way, or complete but for its record. */
  ghost predicate UnderWay(a: State, target: Hash, b: State) {
    (exists halt, way :: HaltedAt(a, target, b, halt, way)) || MovedTo(a, target, b)
  }

  /** What a publication of `target` does to the host, by outcome. */
  ghost predicate Published(a: State, target: Hash, out: Outcome, b: State) {
    match out
    case Done =>
      && Passes(a, target) && MovedTo(a, target, b.(ledger := a.ledger)) && Intact(b)
      && b.ledger == Marked(b.(ledger := a.ledger))
    case Stopped => Passes(a, target) && UnderWay(a, target, b)
    case Refused(ReadBack) => Passes(a, target) && MovedTo(a, target, b) && !Intact(b)
    case Refused(Unreadable) =>
      !Readable(a.commits, target) && (b == a || (Passes(a, target) && MovedTo(a, target, b) && Intact(b)))
    case Refused(AmbiguousOrigin) => b == a && exists r | r in a.ledger :: !KnownOrigin(r)
    case Refused(Divergence) => b == a && !Ancestor(a.commits, a.tip, target)
    case Refused(Conflict) => b == a && a.tip in a.commits && target in a.commits && Blocked(a, target)
    case _ => false
  }

  lemma MarkedUnlocked(s: State, locked: bool)
    ensures Marked(s.(locked := locked)) == Marked(s)
  {
    hide Reaches;
  }

  /** The lock makes no difference to what is published. */
  lemma PublishedUnlocked(a: State, target: Hash, out: Outcome, b: State, locked: bool)
    requires Published(a, target, out, b)
    ensures Published(a.(locked := locked), target, out, b.(locked := locked))
  {
    hide Reaches, Interrupted, Written, Marked, AllSettled, Complete, Holds;
    var a', b' := a.(locked := locked), b.(locked := locked);
    if out.Done? {
      MarkedUnlocked(b.(ledger := a.ledger), locked);
    }
    if out.Stopped? {
      if halt, way :| HaltedAt(a, target, b, halt, way) {
        assert HaltedAt(a', target, b', halt, way);
      }
    }
  }

  ghost predicate Ambiguous(r: Row) {
    r.origin == UnknownOrigin || r.state == NoAdmission || (r.origin == FromHost && r.state == Pending)
  }

  /** A row of unknown origin, without an admission, or of the host but not delivered
      stops every publication before it changes anything; the other rows never do. */
  lemma AmbiguousRowsRefuse(a: State, target: Hash, out: Outcome, b: State)
    requires Published(a, target, out, b)
    ensures (exists r | r in a.ledger :: Ambiguous(r)) ==> out.Refused? && b == a
    ensures out == Refused(AmbiguousOrigin) ==> exists r | r in a.ledger :: Ambiguous(r)
  {
    hide Reaches, Interrupted, Written, AllSettled, Complete, Holds, Marked;
  }

  // ----- checking -----

  /** What a check does to a host whose worktree is bound, by outcome. */
  ghost predicate Checked(a: State, out: Outcome, b: State) {
    || (out == Refused(Busy) && b == a)
    || (a.ledger == [] && out.Done? && b == a)
    || (a.ledger != [] && Published(a, Expected(a), out, b))
    || (a.ledger != [] && out == Refused(Unreadable) && b == a
        && !(a.ledger[|a.ledger| - 1].commit in a.commits && Readable(a.commits, a.tip)))
  }

  /** Nothing is left to do: the worktree holds the tip, the tip is what a check
      would publish, and no land row on its lineage is pending. */
  ghost predicate Quiet(s: State) {
    && s.ledger != [] && s.tip in s.commits && s.tip == Expected(s) && s.staged == {}
    && Holds(s.work, s.commits[s.tip].tree) && DirsOf(s.commits[s.tip].tree) <= s.work.dirs
    && (forall r | r in s.ledger :: KnownOrigin(r))
    && NothingPendingOnLineage(s)
  }

  lemma QuietPasses(s: State)
    requires Quiet(s)
    ensures Passes(s, s.tip)
  {
    hide Reaches, Marked;
    AncestorReflexive(s.commits, s.tip);
    HoldsIsSettled(s.work, s.commits[s.tip].tree);
  }

  /** A publication that finds nothing to do changes nothing. */
  lemma QuietIsFinished(s: State)
    requires Quiet(s)
    ensures Finished(s, s.tip) == s
  {
    hide Reaches, Projected, DirsOf, Accessible;
    ProjectedOverItself(s.work, s.commits[s.tip].tree);
    assert Moved(s, s.tip) == s;
    forall n | 0 <= n < |s.ledger| ensures Marked(s)[n] == s.ledger[n] {
      assert s.ledger[n] in s.ledger;
      assert !Deliverable(s, s.ledger[n]);
    }
    assert Marked(s) == s.ledger;
  }

  /** Publishing the tip again can hit nothing, and ends as it should. */
  lemma TipIsMovedTo(a: State, b: State)
    requires Passes(a, a.tip) && MovedTo(a, a.tip, b)
    ensures b == Moved(a, a.tip) && Intact(b)
  {
    hide Reaches, Slippery, AllSettled, Projected, Parents, Undercut, Clash, Accessible;
    var tree := a.commits[a.tip].tree;
    NothingSlipsOverItself(tree);
    SparedWhereNothingSlips(Projected(a.work, tree, tree), b.work, tree, tree);
    WrittenHoldsUnlessHit(a.work, b.work, tree, tree);
  }

  /** A finished publication is the intended one, except for what it hit. */
  lemma DoneIsFinished(a: State, target: Hash, b: State)
    requires Published(a, target, Done, b)
    ensures SparedBy(a, target, Finished(a, target), b)
    ensures (forall v :: !Slipping(a, target, v)) ==> b == Finished(a, target)
  {
    hide Reaches, Slippery, AllSettled, Projected, Holds;
    var m := b.(ledger := a.ledger);
    MarkedLooksAtNoFiles(Moved(a, target), m);
    if forall v :: !Slipping(a, target, v) {
      var old_, tree := a.commits[a.tip].tree, a.commits[target].tree;
      assert forall v :: Slippery(old_, tree, v) ==> Slipping(a, target, v);
      SparedWhereNothingSlips(Moved(a, target).work, b.work, old_, tree);
    }
  }

  lemma MarkedLooksAtNoFiles(a: State, b: State)
    requires b == a.(work := b.work)
    ensures Marked(b) == Marked(a)
  {
    hide Reaches;
  }

  lemma MarkedStaysKnown(s: State)
    requires forall r | r in s.ledger :: KnownOrigin(r)
    ensures forall r | r in Marked(s) :: KnownOrigin(r)
  {
    hide Reaches;
    var m := Marked(s);
    forall r | r in m ensures KnownOrigin(r) {
      var n :| 0 <= n < |m| && m[n] == r;
      assert s.ledger[n] in s.ledger;
    }
  }

  lemma MarkedKeepsCommits(s: State)
    ensures |Marked(s)| == |s.ledger| && forall n | 0 <= n < |s.ledger| ::
              Marked(s)[n].commit == s.ledger[n].commit && Marked(s)[n].origin == s.ledger[n].origin
  {
    hide Reaches;
  }

  /** The goal of a check stays what it was once the branch is there. */
  lemma GoalStays(a: State, b: State)
    requires a.ledger != [] && b.ledger != [] && a.commits == b.commits && (b.tip == a.tip || b.tip == Expected(a))
    requires a.ledger[|a.ledger| - 1].commit == b.ledger[|b.ledger| - 1].commit
    ensures Expected(b) == Expected(a)
  {
  }

  /** A publication that is done and is what a check would publish leaves nothing to do. */
  lemma DoneIsQuiet(a: State, target: Hash, b: State)
    requires a.ledger != [] && Published(a, target, Done, b)
    requires target == Expected(a) || target == a.ledger[|a.ledger| - 1].commit
    ensures Quiet(b)
  {
    hide Reaches, Projected, Settled, Accessible, DirsOf, Clash, Marked, Deliverable, Slippery, Undercut, Holds,
         Written;
    var m := b.(ledger := a.ledger);
    WrittenHoldsUnlessHit(a.work, m.work, a.commits[a.tip].tree, a.commits[b.tip].tree);
    MarkedStaysKnown(m);
    MarkedKeepsCommits(m);
    MarkedLeavesNothing(m);
    if target == Expected(a) { GoalStays(a, b); }
  }

  lemma CheckedIsQuiet(a: State, b: State)
    requires Checked(a, Done, b) && b.ledger != []
    ensures Quiet(b)
  {
    hide Published, Quiet, Readable;
    if a.ledger != [] { DoneIsQuiet(a, Expected(a), b); }
  }

  // ----- when nothing gets in the way -----

  ghost predicate WritableFrom(s: State, target: Hash) {
    s.tip in s.commits && target in s.commits && Writable(s.commits[s.tip].tree, s.commits[target].tree)
  }

  /** Nothing on the host stands in the way of publishing the target: no refusal is
      due, its history can be read, and every file can be written. */
  ghost predicate Clear(s: State, target: Hash) {
    Passes(s, target) && Readable(s.commits, target) && WritableFrom(s, target)
  }

  /** Then a publication that is not cut short is done, and ends as it should. */
  lemma ClearPublishes(a: State, target: Hash)
    requires Clear(a, target)
    ensures forall out, b | Published(a, target, out, b) && !out.Stopped? :: out.Done? && b == Finished(a, target)
  {
    hide Reaches, Complete, Writable, Published, Finished;
    forall out, b | Published(a, target, out, b) && !out.Stopped? ensures out.Done? && b == Finished(a, target) {
      ClearIsNotRefused(a, target, out, b);
      NothingSlips(a, target);
      DoneIsFinished(a, target, b);
    }
  }

  lemma NothingSlips(a: State, target: Hash)
    requires WritableFrom(a, target)
    ensures forall v :: !Slipping(a, target, v)
  {
    hide Writable, Slippery;
    NothingSlipsWhereWritable(a.commits[a.tip].tree, a.commits[target].tree);
  }

  lemma ClearIsNotRefused(a: State, target: Hash, out: Outcome, b: State)
    requires Clear(a, target) && Published(a, target, out, b) && !out.Stopped?
    ensures out.Done?
  {
    hide Reaches, Complete, Writable, Written, AllSettled, Slippery, Holds, Marked;
    NothingSlipsWhereWritable(a.commits[a.tip].tree, a.commits[target].tree);
    if out == Refused(ReadBack) {
      WrittenMayAdvance(a.work, b.work, a.commits[a.tip].tree, a.commits[target].tree);
    }
  }

  lemma ClearUnlocked(s: State, target: Hash, locked: bool)
    requires Clear(s, target)
    ensures Clear(s.(locked := locked), target)
    ensures Finished(s.(locked := locked), target) == Finished(s, target).(locked := locked)
    ensures Finished(s, target).locked == s.locked
  {
    hide Reaches, Complete, Writable, AllSettled, Marked, Projected;
    MarkedUnlocked(Moved(s, target), locked);
  }

  /** That end is one a publication can have. */
  lemma FinishedIsDone(a: State, target: Hash)
    requires Clear(a, target)
    ensures Published(a, target, Done, Finished(a, target))
  {
    hide Reaches, Complete, Marked, Projected, Holds;
    var old_, tree := a.commits[a.tip].tree, a.commits[target].tree;
    assert AllSettled(a.work, old_, tree);
    assert Written(a.work, Moved(a, target).work, old_, tree) by { WritableIsWritten(a.work, old_, tree); }
    assert Holds(Moved(a, target).work, tree) by { WrittenHoldsWhereWritable(a.work, old_, tree); }
  }

  lemma WrittenHoldsWhereWritable(before: Disk, old_: Tree, target: Tree)
    requires AllSettled(before, old_, target) && Writable(old_, target)
    ensures Holds(Projected(before, old_, target), target)
  {
    hide Accessible, Settled, Projected, Holds, Parents;
    ProjectedHolds(before, old_, target);
  }

  /** The check that follows a land finds nothing left to do. */
  lemma FinishedStaysFinished(s: State, target: Hash)
    requires s.ledger != [] && Clear(s, target) && s.ledger[|s.ledger| - 1].commit == target
    ensures var b := Finished(s, target); ReadyToCheck(b) && Expected(b) == target && Finished(b, target) == b
  {
    hide Reaches, Complete, Marked, Projected, Holds, DirsOf, NothingPendingOnLineage, Published, AllSettled, Parents;
    var b := Finished(s, target);
    FinishedIsDone(s, target);
    DoneIsQuiet(s, target, b);
    QuietPasses(b);
    QuietIsFinished(b);
    MarkedKeepsCommits(Moved(s, target));
  }

  /** A host on which a check has something to publish and nothing stands in its way. */
  ghost predicate ReadyToCheck(s: State) {
    && s.ledger != [] && s.ledger[|s.ledger| - 1].commit in s.commits && Readable(s.commits, s.tip)
    && Clear(s, Expected(s))
  }

  lemma ReadyLocked(s: State)
    requires ReadyToCheck(s)
    ensures Clear(s.(locked := true), Expected(s))
    ensures Finished(s.(locked := true), Expected(s)) == Finished(s, Expected(s)).(locked := true)
    ensures Finished(s, Expected(s)).locked == s.locked
  {
    hide Clear, Finished;
    ClearUnlocked(s, Expected(s), true);
  }

  // ----- landing -----

  predicate InLedger(ledger: seq<Row>, h: Hash) {
    exists r | r in ledger :: r.commit == h
  }

  /** `newChain`: a guest commit is new unless the ledger records it or the host
      store already has it. */
  function NewCommits(guest: seq<Hash>, ledger: seq<Row>, commits: Store): seq<Hash> {
    if guest == [] then []
    else NewCommits(guest[..|guest| - 1], ledger, commits)
         + if InLedger(ledger, guest[|guest| - 1]) || guest[|guest| - 1] in commits then [] else [guest[|guest| - 1]]
  }

  /** The new commits form one chain by first parents. */
  predicate Linked(pool: map<Hash, Commit>, chain: seq<Hash>) {
    forall i | 0 < i < |chain| ::
      chain[i] in pool && pool[chain[i]].parents != [] && pool[chain[i]].parents[0] == chain[i - 1]
  }

  lemma NothingIsLinked(pool: map<Hash, Commit>)
    ensures Linked(pool, [])
  {
  }

  lemma {:induction false} NewCommitsAre(guest: seq<Hash>, ledger: seq<Row>, commits: Store)
    ensures forall h :: h in NewCommits(guest, ledger, commits) <==> h in guest && h !in commits && !InLedger(ledger, h)
  {
    if guest != [] {
      NewCommitsAre(guest[..|guest| - 1], ledger, commits);
      assert guest == guest[..|guest| - 1] + [guest[|guest| - 1]];
    }
  }

  ghost predicate Agree(g: Store, pool: map<Hash, Commit>) {
    forall h | h in g && h in pool :: g[h] == pool[h]
  }

  ghost function Rows(chain: seq<Hash>): seq<Row> {
    seq(|chain|, i requires 0 <= i < |chain| => Row(chain[i], FromLand, Pending))
  }

  /** The host once a batch is imported and its rows are appended. */
  ghost function Appended(a: State, pool: map<Hash, Commit>, chain: seq<Hash>): State {
    a.(commits := a.commits + pool, ledger := a.ledger + Rows(chain))
  }

  /** The host with some of the pool imported and nothing else done. */
  ghost predicate PartImported(a: State, pool: map<Hash, Commit>, b: State) {
    && b == a.(commits := b.commits) && Extends(a.commits, b.commits)
    && forall h | h in b.commits && h !in a.commits :: h in pool && b.commits[h] == pool[h]
  }

  /** What a land of a batch does to the host, `bound` telling whether the task's
      worktree resolves once the rows are appended. */
  ghost predicate Landed(a: State, pool: map<Hash, Commit>, chain: seq<Hash>, bound: bool, out: Outcome, b: State) {
    || (out == Refused(Busy) && b == a)
    || (out.Done? && chain == [] && b == a)
    || (out.Stopped? && PartImported(a, pool, b))
    || (out.Stopped? && chain != [] && b == Appended(a, pool, chain))
    || (chain != [] && !bound && out == Refused(Unbound) && b == Appended(a, pool, chain))
    || (chain != [] && bound && Published(Appended(a, pool, chain), chain[|chain| - 1], out, b))
  }

  /** A batch on a host on which nothing stands in the way of landing it. */
  ghost predicate ReadyToLand(s: State, pool: map<Hash, Commit>, chain: seq<Hash>) {
    chain != [] && Clear(Appended(s, pool, chain), chain[|chain| - 1])
  }

  /** The rows of `a` are still there, with their commits and origins. */
  ghost predicate KeepsRows(a: seq<Row>, b: seq<Row>) {
    |a| <= |b| && forall n | 0 <= n < |a| :: b[n].commit == a[n].commit && b[n].origin == a[n].origin
  }

  /** `b` has the rows of `a`, more only for commits of the batch, and more commits only
      from the pool. */
  ghost predicate Recorded(a: State, pool: map<Hash, Commit>, chain: seq<Hash>, b: State) {
    && KeepsRows(a.ledger, b.ledger) && (forall n | |a.ledger| <= n < |b.ledger| :: b.ledger[n].commit in chain)
    && Extends(a.commits, b.commits) && Extends(b.commits, a.commits + pool)
  }

  ghost predicate AllInLedger(ledger: seq<Row>, chain: seq<Hash>) {
    forall h | h in chain :: InLedger(ledger, h)
  }

  lemma NothingRecorded(a: State, pool: map<Hash, Commit>)
    requires Agree(a.commits, pool)
    ensures Recorded(a, pool, [], a) && AllInLedger(a.ledger, [])
  {
  }

  lemma RecordedMore(a: State, pool: map<Hash, Commit>, chain: seq<Hash>)
    requires Recorded(a, pool, [], a)
    ensures Recorded(a, pool, chain, a)
  {
  }

  lemma LandRecords(a: State, pool: map<Hash, Commit>, chain: seq<Hash>, bound: bool, out: Outcome, b: State)
    requires Landed(a, pool, chain, bound, out, b) && chain != [] && Agree(a.commits, pool)
    ensures out != Refused(NotAChain)
    ensures Recorded(a.(locked := false), pool, chain, b.(locked := false))
            && (out.Done? ==> AllInLedger(b.ledger, chain))
  {
    hide Landed, KeepsRows, InLedger;
    LandedLedger(a, pool, chain, bound, out, b);
  }

  lemma CheckRecords(a: State, pool: map<Hash, Commit>, chain: seq<Hash>, mid: State, out: Outcome, b: State)
    requires Recorded(a, pool, chain, mid) && AllInLedger(mid.ledger, chain) && Checked(mid, out, b)
    ensures out != Refused(NotAChain) && Recorded(a, pool, chain, b) && AllInLedger(b.ledger, chain)
  {
    hide Checked, InLedger, Extends;
    CheckedLedger(mid, out, b);
    forall h | h in chain ensures InLedger(b.ledger, h) { KeptRowsStay(mid.ledger, b.ledger, h); }
  }

  lemma KeptRowsStay(a: seq<Row>, b: seq<Row>, h: Hash)
    requires KeepsRows(a, b) && InLedger(a, h)
    ensures InLedger(b, h)
  {
    var r :| r in a && r.commit == h;
    var n :| 0 <= n < |a| && a[n] == r;
    assert b[n] in b;
  }

  lemma PublishedLedger(a: State, target: Hash, out: Outcome, b: State)
    requires Published(a, target, out, b)
    ensures out != Refused(NotAChain) && b.commits == a.commits && KeepsRows(a.ledger, b.ledger)
            && |b.ledger| == |a.ledger|
  {
    hide Reaches, Interrupted, Marked, Written, AllSettled, Complete, Holds;
    if out.Done? {
      MarkedKeepsCommits(b.(ledger := a.ledger));
    }
  }

  lemma LandedLedger(a: State, pool: map<Hash, Commit>, chain: seq<Hash>, bound: bool, out: Outcome, b: State)
    requires Landed(a, pool, chain, bound, out, b) && chain != []
    ensures out != Refused(NotAChain) && KeepsRows(a.ledger, b.ledger)
    ensures forall n | |a.ledger| <= n < |b.ledger| :: b.ledger[n].commit in chain
    ensures out.Done? ==> forall h | h in chain :: InLedger(b.ledger, h)
    ensures Agree(a.commits, pool) ==> Extends(a.commits, b.commits) && Extends(b.commits, a.commits + pool)
  {
    hide Published;
    var s := Appended(a, pool, chain);
    if bound && Published(s, chain[|chain| - 1], out, b) {
      PublishedLedger(s, chain[|chain| - 1], out, b);
    }
    if out.Done? {
      forall h | h in chain ensures InLedger(b.ledger, h) {
        var i :| 0 <= i < |chain| && chain[i] == h;
        assert s.ledger[|a.ledger| + i].commit == h;
        assert b.ledger[|a.ledger| + i] in b.ledger;
      }
    }
  }

  lemma CheckedLedger(a: State, out: Outcome, b: State)
    requires Checked(a, out, b)
    ensures out != Refused(NotAChain) && b.commits == a.commits && KeepsRows(a.ledger, b.ledger)
            && |b.ledger| == |a.ledger|
  {
    hide Published;
    if a.ledger != [] && Published(a, Expected(a), out, b) {
      PublishedLedger(a, Expected(a), out, b);
    }
  }

  // ----- what keeps a host sound -----

  lemma SoundImported(a: State, b: State)
    requires Sound(a) && Extends(a.commits, b.commits) && b == a.(commits := b.commits)
    ensures Sound(b)
  {
    hide Reaches;
    forall r | r in a.ledger && r.origin == FromLand && r.state == Delivered {
      AncestorSurvives(a.commits, b.commits, r.commit, a.tip);
    }
  }

  lemma SoundAppended(a: State, b: State, rows: seq<Row>)
    requires Sound(a) && b == a.(ledger := a.ledger + rows)
    requires forall r | r in rows :: r.state == Pending && r.commit in a.commits
    ensures Sound(b)
  {
  }

  lemma SoundTip(s: State)
    requires Sound(s)
    ensures s.tip in s.commits
  {
  }

  lemma SoundMidway(a: State, b: State)
    requires Sound(a) && b.commits == a.commits && b.tip == a.tip && b.ledger == a.ledger
    ensures Sound(b)
  {
  }

  lemma SoundAdvanced(a: State, b: State)
    requires Sound(a) && b.commits == a.commits && b.ledger == a.ledger
    requires b.tip in b.commits && Ancestor(a.commits, a.tip, b.tip)
    ensures Sound(b)
  {
    forall r | r in a.ledger && r.origin == FromLand && r.state == Delivered {
      AncestorTransitive(a.commits, r.commit, a.tip, b.tip);
    }
  }

  lemma DeliveringMarks(s: State)
    requires Sound(s) && s.locked
    ensures Delivers(s, s.(ledger := Marked(s))) && Sound(s.(ledger := Marked(s)))
  {
    hide Reaches;
    var m := Marked(s);
    forall r | r in m && r.origin == FromLand
      ensures r.commit in s.commits && (r.state == Delivered ==> Ancestor(s.commits, r.commit, s.tip))
    {
      var n :| 0 <= n < |m| && m[n] == r;
      assert s.ledger[n] in s.ledger;
    }
  }
}
