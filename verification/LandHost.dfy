/** The land path as the daemon runs it. A stop may fall before any effect and inside
    the writing of a file: the process dies or a store fails, and the rest of the
    operation does not happen. */
module LandHost {
  import opened CommitGraph
  import opened Worktree
  import opened LandModel
  import opened LandSpec

  class Host {
    var commits: Store
    var tip: Hash
    var work: Disk
    var staged: set<string>
    var ledger: seq<Row>
    var locked: bool

    /** Every state the host has been in. */
    ghost var history: seq<State>

    /** Something from outside has got in the way of an operation: the process died, a
        store failed, or another process held the lock for too long. */
    ghost var cutShort: bool

    ghost function Now(): State
      reads this
    {
      State(commits, tip, work, staged, ledger, locked)
    }

    ghost predicate Valid()
      reads this
    {
      Run(history) && history[|history| - 1] == Now()
    }

    constructor (s: State)
      requires !s.locked
      ensures Valid() && Now() == s && history == [s] && !cutShort
    {
      commits, tip, work, staged, ledger, locked := s.commits, s.tip, s.work, s.staged, s.ledger, s.locked;
      history, cutShort := [s], false;
    }

    // ----- single effects -----

    /** The lock may only be asked for by a process that does not hold it. Another
        process may hold it for longer than the timeout. */
    method Acquire() returns (ok: bool)
      requires Valid() && !locked
      modifies this`locked, this`history, this`cutShort
      ensures Valid() && old(history) <= history && locked == ok && cutShort == (old(cutShort) || !ok)
    {
      ok := *;
      if !ok {
        cutShort := true;
        return;
      }
      locked := true;
      assert Locks(old(Now()), Now());
      RunExtends(history, Now());
      history := history + [Now()];
    }

    method Release()
      requires Valid() && locked
      modifies this`locked, this`history
      ensures Valid() && !locked && old(history) <= history
    {
      locked := false;
      assert Unlocks(old(Now()), Now());
      RunExtends(history, Now());
      history := history + [Now()];
    }

    method Import(h: Hash, c: Commit)
      requires Valid() && locked && (h in commits ==> commits[h] == c)
      modifies this`commits, this`history
      ensures Valid() && old(history) <= history && commits == old(commits)[h := c]
    {
      commits := commits[h := c];
      assert Imports(old(Now()), Now(), h, c);
      RunExtends(history, Now());
      history := history + [Now()];
    }

    method Append(rows: seq<Row>)
      requires Valid() && locked
      requires forall r | r in rows :: r.origin == FromLand && r.state == Pending && r.commit in commits
      modifies this`ledger, this`history
      ensures Valid() && old(history) <= history && ledger == old(ledger) + rows
    {
      ledger := ledger + rows;
      assert Appends(old(Now()), Now(), rows);
      RunExtends(history, Now());
      history := history + [Now()];
    }

    method Make(target: Hash, d: string)
      requires Valid() && exists b :: Makes(Now(), b, target, d)
      modifies this`work, this`history
      ensures Valid() && old(history) <= history && work == old(work).(dirs := old(work).dirs + {d})
    {
      work := work.(dirs := work.dirs + {d});
      assert Makes(old(Now()), Now(), target, d);
      RunExtends(history, Now());
      history := history + [Now()];
    }

    method Vacate(target: Hash, p: string)
      requires Valid() && exists b :: Vacates(Now(), b, target, p)
      modifies this`work, this`history
      ensures Valid() && old(history) <= history && work == old(work).(files := old(work).files - {p})
    {
      work := work.(files := work.files - {p});
      assert Vacates(old(Now()), Now(), target, p);
      RunExtends(history, Now());
      history := history + [Now()];
    }

    method Fill(target: Hash, p: string, left: Entry)
      requires Valid() && exists b :: Fills(Now(), b, target, p, left)
      modifies this`work, this`history
      ensures Valid() && old(history) <= history && work == old(work).(files := old(work).files[p := left])
    {
      work := work.(files := work.files[p := left]);
      assert Fills(old(Now()), Now(), target, p, left);
      RunExtends(history, Now());
      history := history + [Now()];
    }

    method Slip(target: Hash, p: string, q: string, v: string)
      requires Valid() && exists b :: Slips(Now(), b, target, p, q, v)
      modifies this`work, this`history
      ensures Valid() && old(history) <= history && work == Disk(old(work).files - {v}, old(work).dirs - {v})
    {
      work := Disk(work.files - {v}, work.dirs - {v});
      assert Slips(old(Now()), Now(), target, p, q, v);
      RunExtends(history, Now());
      history := history + [Now()];
    }

    method Advance(target: Hash)
      requires Valid() && exists b :: Advances(Now(), b, target)
      modifies this`tip, this`history
      ensures Valid() && old(history) <= history && tip == target
    {
      tip := target;
      assert Advances(old(Now()), Now(), target);
      RunExtends(history, Now());
      history := history + [Now()];
    }

    method RecordDelivered(rows: seq<Row>)
      requires Valid() && Delivers(Now(), Now().(ledger := rows))
      modifies this`ledger, this`history
      ensures Valid() && old(history) <= history && ledger == rows
    {
      ledger := rows;
      assert Delivers(old(Now()), Now());
      RunExtends(history, Now());
      history := history + [Now()];
    }

    /** The host edits and stages files on its own. */
    method NativeEdit(disk: Disk, paths: set<string>)
      requires Valid() && !locked && tip in commits
      modifies this`work, this`staged, this`history
      ensures Valid() && old(history) <= history && work == disk && staged == paths
    {
      work, staged := disk, paths;
      AncestorReflexive(commits, tip);
      assert Native(old(Now()), Now());
      RunExtends(history, Now());
      history := history + [Now()];
    }

    /** The host records a commit of its own on top of the tip. */
    method NativeCommit(h: Hash, c: Commit)
      requires Valid() && !locked && tip in c.parents && (h in commits ==> commits[h] == c)
      modifies this`commits, this`tip, this`ledger, this`history
      ensures Valid() && old(history) <= history
      ensures commits == old(commits)[h := c] && tip == h && ledger == old(ledger) + [Row(h, FromHost, Delivered)]
      ensures Native(old(Now()), Now())
    {
      commits, tip, ledger := commits[h := c], h, ledger + [Row(h, FromHost, Delivered)];
      AncestorReflexive(commits, h);
      ReachesParent(commits, {h}, {}, h, old(tip));
      assert Native(old(Now()), Now());
      RunExtends(history, Now());
      history := history + [Now()];
    }

    // ----- reads -----

    method IsAncestor(a: Hash, d: Hash) returns (ok: bool, yes: bool)
      ensures ok ==> a in commits && d in commits && (yes <==> Ancestor(commits, a, d))
      ensures a in commits && d in commits && !(ok && yes) ==> (ok <==> Complete(commits, {d}, {}))
    {
      if a !in commits || d !in commits {
        return false, false;
      }
      ok, yes := Found(commits, a, d);
    }

    /** `VerifyDelivered`: branch, staging and every tracked file are read back. */
    method VerifyDelivered(target: Hash) returns (ok: bool)
      requires target in commits
      ensures ok <==> tip == target && staged == {} && Holds(work, commits[target].tree)
    {
      if tip != target || staged != {} {
        return false;
      }
      var tree := commits[target].tree;
      var rest := tree.Keys;
      while rest != {}
        invariant rest <= tree.Keys
        invariant forall p | p in tree && p !in rest ::
                    Accessible(work, p) && p in work.files && work.files[p] == tree[p]
        decreases rest
      {
        var p :| p in rest;
        if !Accessible(work, p) || p !in work.files || work.files[p] != tree[p] {
          return false;
        }
        rest := rest - {p};
      }
      return true;
    }

    /** The conflict scan: all paths are checked before anything is written. */
    method Scan(before: Tree, target: Tree) returns (clear: bool)
      ensures clear <==> AllSettled(work, before, target)
    {
      var rest := before.Keys + target.Keys;
      while rest != {}
        invariant rest <= before.Keys + target.Keys
        invariant forall p | (p in before || p in target) && p !in rest ::
                    Accessible(work, p) && Settled(work, before, target, p)
        decreases rest
      {
        var p :| p in rest;
        if !Accessible(work, p) || !Settled(work, before, target, p) {
          return false;
        }
        rest := rest - {p};
      }
      return true;
    }

    // ----- projecting a commit onto the worktree -----

    /** Whether the process stops here. */
    method StopsHere() returns (stop: bool)
      modifies this`cutShort
      ensures cutShort == (old(cutShort) || stop)
    {
      stop := *;
      cutShort := cutShort || stop;
    }

    /** `os.MkdirAll` for the directories of a file of the target. */
    method MakeParents(target: Hash, p: string, ghost before: Disk, ghost done: set<string>) returns (stopped: bool)
      requires Valid() && locked && target in commits && Ancestor(commits, tip, target)
      requires p in commits[target].tree && Accessible(work, p)
      requires Partly(before, work, commits[target].tree, done, {}, Between)
      modifies this`work, this`history, this`cutShort
      ensures Valid() && old(history) <= history && work.files == old(work).files && Accessible(work, p)
      ensures Partly(before, work, commits[target].tree, done, {}, Between)
      ensures !stopped ==> Parents(p) <= work.dirs
      ensures (old(cutShort) ==> cutShort) && (stopped ==> cutShort)
    {
      hide Run, Next, Reaches, ValidPath, Partly;
      var missing := Parents(p) - work.dirs;
      while missing != {}
        invariant Valid() && locked && old(history) <= history && (old(cutShort) ==> cutShort)
        invariant work.files == old(work).files && p !in work.dirs
        invariant Partly(before, work, commits[target].tree, done, {}, Between)
        invariant missing == Parents(p) - work.dirs
        decreases missing
      {
        stopped := StopsHere();
        if stopped { return; }
        var d :| d in missing;
        assert d !in work.files && d in DirsOf(commits[target].tree);
        PartlyMakes(before, work, commits[target].tree, done, d);
        assert Makes(Now(), Now().(work := work.(dirs := work.dirs + {d})), target, d);
        Make(target, d);
        missing := missing - {d};
      }
      assert forall d | d in Parents(p) :: d in work.dirs || d in missing;
      stopped := false;
    }

    /** `writeEntryToDir`: the directories are made, whatever is at the path is
        removed, then the entry is written, which may break off. A path that is
        not accessible and an entry that is no blob are errors. */
    method WriteEntry(target: Hash, p: string, ghost before: Disk, ghost done: set<string>)
      returns (stopped: bool, ghost halt: Halt)
      requires Valid() && locked && tip in commits && target in commits && Ancestor(commits, tip, target)
      requires p in commits[target].tree && p !in done && Settled(before, commits[tip].tree, commits[target].tree, p)
      requires Partly(before, work, commits[target].tree, done, {}, Between)
      modifies this`work, this`history, this`cutShort
      ensures Valid() && old(history) <= history
      ensures !stopped ==> Partly(before, work, commits[target].tree, done + {p}, {}, Between)
      ensures !stopped ==> Apart(done, {p}) && Apart({p}, {p})
      ensures stopped ==> Partly(before, work, commits[target].tree, done, {}, halt)
      ensures old(cutShort) ==> cutShort
      ensures stopped ==> cutShort || !Accessible(old(work), p) || commits[target].tree[p].mode == Submodule
    {
      hide Run, Next, Reaches, DirsOf, Parents, Accessible, Apart, Partly;
      halt := Between;
      var entry := commits[target].tree[p];
      if !Accessible(work, p) || entry.mode == Submodule {
        return true, Between;
      }
      ApartFromWritten(before, work, commits[target].tree, done, {}, p);
      stopped := MakeParents(target, p, before, done);
      if stopped { return; }
      if p in work.files {
        stopped := StopsHere();
        if stopped { return; }
        PartlyRemoves(before, work, commits[target].tree, done, p);
        assert Vacates(Now(), Now().(work := work.(files := work.files - {p})), target, p);
        StillAccessible(work, p);
        Vacate(target, p);
        halt := Cleared(p);
      }
      stopped := StopsHere();
      if stopped { return; }
      if entry.mode != Symlink {
        stopped := StopsHere();
      }
      var left := entry;
      if stopped {
        var blob: string := *;
        left := Entry(entry.mode, blob);
        PartlyTears(before, work, commits[target].tree, done, p, halt, left);
        halt := Torn(p, left);
      } else {
        PartlyWrites(before, work, commits[target].tree, done, p, halt);
      }
      assert Fills(Now(), Now().(work := work.(files := work.files[p := left])), target, p, left);
      Fill(target, p, left);
    }

    /** `materializeCommit`: every entry of the target, then the files only the
        old tip had, in whatever order the maps are ranged over. */
    method Materialize(target: Hash) returns (stopped: bool, ghost halt: Halt, ghost way: Disk)
      requires Valid() && locked && tip in commits && target in commits && Ancestor(commits, tip, target)
      requires AllSettled(work, commits[tip].tree, commits[target].tree)
      modifies this`work, this`history, this`cutShort
      ensures Valid() && old(history) <= history
      ensures !stopped ==> Written(old(work), work, commits[tip].tree, commits[target].tree)
      ensures stopped ==> Interrupted(old(work), work, commits[tip].tree, commits[target].tree, halt, way)
      ensures old(cutShort) ==> cutShort
      ensures stopped ==> cutShort || !Writable(commits[tip].tree, commits[target].tree)
    {
      hide Run, Next, Reaches, DirsOf, Parents, ValidPath, Partly, Midway, Projected, Accessible, AllAccessible,
           Clash, Spared;
      var before, tree := commits[tip].tree, commits[target].tree;
      var rest := tree.Keys;
      halt, way := Between, work;
      NothingDoneYet(work, tree);
      while rest != {}
        invariant Valid() && locked && old(history) <= history && (old(cutShort) ==> cutShort) && rest <= tree.Keys
        invariant Partly(old(work), work, tree, tree.Keys - rest, {}, Between)
        invariant Apart(tree.Keys - rest, tree.Keys - rest)
        decreases rest
      {
        var p :| p in rest;
        ghost var was := work;
        stopped, halt := WriteEntry(target, p, old(work), tree.Keys - rest);
        if stopped {
          way := work;
          PartlyIsMidway(old(work), was, before, tree, tree.Keys - rest, {}, Between);
          WritableIsAccessible(old(work), was, was, before, tree, p);
          PartlyIsMidway(old(work), work, before, tree, tree.Keys - rest, {}, halt);
          SparedItself(work, before, tree);
          return;
        }
        assert tree.Keys - rest + {p} == tree.Keys - (rest - {p});
        rest := rest - {p};
      }
      assert tree.Keys - {} == tree.Keys;
      ApartIsNoClash(tree);
      halt := Between;
      stopped, way := RemoveExtras(target, old(work));
    }

    /** The deletion pass of `materializeCommit`. A removal fails on a directory and
        below a file, and goes through a link. */
    method RemoveExtras(target: Hash, ghost start: Disk) returns (stopped: bool, ghost way: Disk)
      requires Valid() && locked && tip in commits && target in commits && Ancestor(commits, tip, target)
      requires AllSettled(start, commits[tip].tree, commits[target].tree)
      requires Partly(start, work, commits[target].tree, commits[target].tree.Keys, {}, Between)
      requires !Clash(commits[target].tree, commits[target].tree)
      modifies this`work, this`history, this`cutShort
      ensures Valid() && old(history) <= history
      ensures !stopped ==> Written(start, work, commits[tip].tree, commits[target].tree)
      ensures stopped ==> Interrupted(start, work, commits[tip].tree, commits[target].tree, Between, way)
      ensures old(cutShort) ==> cutShort
      ensures stopped ==> cutShort || !Writable(commits[tip].tree, commits[target].tree)
    {
      hide Run, Next, Reaches, DirsOf, Parents, Midway, Accessible, AllAccessible, Partly, Spared, Rooted, Unopposed,
           Clash, Projected, Written;
      var before, tree := commits[tip].tree, commits[target].tree;
      var extra := before.Keys - tree.Keys;
      ghost var gone: set<string> := {};
      way := work;
      SparedItself(work, before, tree);
      NothingOpposedYet(start, work, tree);
      while extra != {}
        invariant Valid() && locked && old(history) <= history && (old(cutShort) ==> cutShort)
        invariant gone == before.Keys - tree.Keys - extra && extra <= before.Keys - tree.Keys
        invariant Partly(start, way, tree, tree.Keys, gone, Between) && Spared(way, work, before, tree)
        invariant Rooted(work, tree) && Unopposed(work, tree, gone)
        decreases extra
      {
        var p :| p in extra;
        stopped := StopsHere();
        if stopped || !Removable(work, p) {
          PartlyIsMidway(start, way, before, tree, tree.Keys, gone, Between);
          WritableIsAccessible(start, way, work, before, tree, p);
          AccessibleIsRemovable(work, p);
          return true, way;
        }
        way := RemoveExtra(target, p, start, way, gone);
        extra, gone := extra - {p}, gone + {p};
      }
      assert gone == before.Keys - tree.Keys;
      stopped := false;
      PartlyIsProjected(start, way, before, tree);
      UnopposedIsWritten(start, work, before, tree);
    }

    /** One `os.Remove` of the deletion pass that does not fail. */
    method RemoveExtra(target: Hash, p: string, ghost start: Disk, ghost way: Disk, ghost gone: set<string>)
      returns (ghost next: Disk)
      requires Valid() && locked && tip in commits && target in commits && Ancestor(commits, tip, target)
      requires AllSettled(start, commits[tip].tree, commits[target].tree)
      requires p in commits[tip].tree && p !in commits[target].tree && p !in gone && Removable(work, p)
      requires Partly(start, way, commits[target].tree, commits[target].tree.Keys, gone, Between)
      requires Spared(way, work, commits[tip].tree, commits[target].tree)
      requires Rooted(work, commits[target].tree) && Unopposed(work, commits[target].tree, gone)
      modifies this`work, this`history
      ensures Valid() && old(history) <= history
      ensures Partly(start, next, commits[target].tree, commits[target].tree.Keys, gone + {p}, Between)
      ensures Spared(next, work, commits[tip].tree, commits[target].tree)
      ensures Rooted(work, commits[target].tree) && Unopposed(work, commits[target].tree, gone + {p})
    {
      hide Run, Next, Reaches, DirsOf, Parents, Accessible, AllAccessible, Partly, Rooted, Unopposed, Spared, Base,
           Hollow;
      ghost var before, tree := commits[tip].tree, commits[target].tree;
      OneMoreUnopposed(work, tree, gone, p);
      PartlyDrops(start, way, tree, gone, p);
      next := way.(files := way.files - {p});
      SparedDrops(way, work, before, tree, p);
      if p in work.files {
        assert Settled(start, before, tree, p);
        assert Vacates(Now(), Now().(work := work.(files := work.files - {p})), target, p);
        Vacate(target, p);
        LessIsUnopposed(old(work), work, tree, gone + {p});
      } else {
        assert work.files - {p} == work.files;
      }
      var links := work.files.Keys * Parents(p);
      if links != {} {
        var q :| q in links;
        var v: string := *;
        if Base(v) == Base(p) && (v in work.files || v in work.dirs) && (v in work.dirs ==> Hollow(work, v)) {
          LinkIsTheTargets(start, next, work, before, tree, gone + {p}, p, q);
          ghost var was := work;
          assert Slips(Now(), Now().(work := Disk(work.files - {v}, work.dirs - {v})), target, p, q, v);
          Slip(target, p, q, v);
          SparedSlips(next, was, before, tree, p, q, v);
          SlippedIsUnopposed(was, tree, gone + {p}, v);
        }
      }
    }

    /** `FastForwardDelivered`: refuses a divergence or a third version with
        nothing touched; otherwise writes the tree and moves the branch last. */
    method FastForwardDelivered(target: Hash) returns (out: Outcome)
      requires Valid() && locked && tip in commits
      modifies this`tip, this`work, this`history, this`cutShort
      ensures Valid() && old(history) <= history
      ensures out.Done? || out.Stopped? ==>
                target in commits && Ancestor(commits, old(tip), target) && !Blocked(old(Now()), target)
      ensures out.Done? ==> MovedTo(old(Now()), target, Now())
      ensures out.Stopped? ==> exists halt, way :: HaltedAt(old(Now()), target, Now(), halt, way)
      ensures out.Refused? ==> Now() == old(Now()) && out.why in {Unreadable, Divergence, Conflict}
      ensures out == Refused(Unreadable) ==> !Readable(commits, target)
      ensures out == Refused(Divergence) ==> !Ancestor(commits, tip, target)
      ensures out == Refused(Conflict) ==> target in commits && Blocked(Now(), target)
      ensures old(cutShort) ==> cutShort
      ensures out.Stopped? ==> cutShort || !Writable(commits[old(tip)].tree, commits[target].tree)
    {
      hide Complete, Reaches, AllSettled, Interrupted, Written, Next;
      if target != tip {
        var ok, yes := IsAncestor(tip, target);
        if !ok {
          return Refused(Unreadable);
        }
        if !yes {
          return Refused(Divergence);
        }
      } else {
        AncestorReflexive(commits, tip);
      }
      if staged != {} {
        return Refused(Conflict);
      }
      var clear := Scan(commits[tip].tree, commits[target].tree);
      if !clear {
        return Refused(Conflict);
      }
      var stopped, halt, way := Materialize(target);
      if !stopped {
        stopped := StopsHere();
        if stopped {
          halt, way := Between, Projected(old(work), commits[tip].tree, commits[target].tree);
          WrittenIsInterrupted(old(work), work, commits[tip].tree, commits[target].tree);
        }
      }
      if stopped {
        assert HaltedAt(old(Now()), target, Now(), halt, way);
        return Stopped;
      }
      WrittenMayAdvance(old(work), work, commits[tip].tree, commits[target].tree);
      assert Advances(Now(), Now().(tip := target), target);
      Advance(target);
      return Done;
    }

    /** `publish`: project, read back, and record what is now on the lineage. */
    method Publish(target: Hash) returns (out: Outcome)
      requires Valid() && locked && Sound(Now())
      modifies this`tip, this`work, this`ledger, this`history, this`cutShort
      ensures Valid() && old(history) <= history && Sound(Now()) && locked
      ensures Published(old(Now()), target, out, Now())
      ensures (old(cutShort) ==> cutShort) && out != Refused(Busy)
      ensures out.Stopped? ==> cutShort || !WritableFrom(old(Now()), target)
      ensures !cutShort && Clear(old(Now()), target) ==> out.Done? && Now() == Finished(old(Now()), target)
    {
      hide Complete, Reaches, AllSettled, Interrupted, Written, Holds, Next, Later, Sound, Writable, Finished;
      SoundTip(Now());
      if Clear(Now(), target) { ClearPublishes(Now(), target); }
      var snapshot := ledger;
      var known := AllKnown(snapshot);
      if !known {
        return Refused(AmbiguousOrigin);
      }
      ghost var before := Now();
      out := FastForwardDelivered(target);
      if !out.Done? {
        if out.Stopped? { SoundMidway(before, Now()); }
        return;
      }
      SoundAdvanced(before, Now());
      var intact := VerifyDelivered(target);
      if !intact {
        return Refused(ReadBack);
      }
      var readable, rows := LineageRows(snapshot, target);
      if !readable {
        return Refused(Unreadable);
      }
      var stopped := StopsHere();
      if stopped {
        return Stopped;
      }
      DeliveringMarks(Now());
      RecordDelivered(rows);
    }

    method AllKnown(rows: seq<Row>) returns (ok: bool)
      ensures ok <==> forall r | r in rows :: KnownOrigin(r)
    {
      for i := 0 to |rows|
        invariant forall r | r in rows[..i] :: KnownOrigin(r)
      {
        if !KnownOrigin(rows[i]) {
          return false;
        }
      }
      assert rows[..|rows|] == rows;
      return true;
    }

    /** The loop that picks the pending land rows on the target's lineage. */
    method LineageRows(snapshot: seq<Row>, target: Hash) returns (ok: bool, rows: seq<Row>)
      requires snapshot == ledger && target == tip && Sound(Now())
      ensures ok ==> rows == Marked(Now())
      ensures !ok ==> target !in commits || !Complete(commits, {target}, {})
    {
      hide Complete, Reaches;
      rows := [];
      for i := 0 to |snapshot|
        invariant |rows| == i && rows == Marked(Now())[..i]
      {
        var r := snapshot[i];
        assert r in ledger;
        if r.origin == FromLand && r.state == Pending {
          var known, onLineage := IsAncestor(r.commit, target);
          if !known {
            return false, [];
          }
          rows := rows + [if onLineage then r.(state := Delivered) else r];
        } else {
          rows := rows + [r];
        }
      }
      return true, rows;
    }

    /** `Check`: under the lock, publish the last ledger commit again, or the
        newer native tip. `bound` is whether the task's worktree resolves. */
    method Check(bound: bool) returns (out: Outcome)
      requires Valid() && !locked && Sound(Now())
      modifies this`tip, this`work, this`ledger, this`locked, this`history, this`cutShort
      ensures Valid() && old(history) <= history && Sound(Now()) && !locked
      ensures bound ==> Checked(old(Now()), out, Now())
      ensures !bound ==> out.Refused? && out.why in {Busy, Unbound} && Now() == old(Now())
      ensures old(cutShort) ==> cutShort
      ensures !cutShort ==> out != Refused(Busy)
      ensures !cutShort && bound && ReadyToCheck(old(Now())) ==>
                out.Done? && Now() == Finished(old(Now()), Expected(old(Now())))
    {
      hide Complete, Reaches, Next, Later, Sound, Published, Clear, Finished;
      ghost var was := Now();
      if ReadyToCheck(was) { ReadyLocked(was); }
      var acquired := Acquire();
      if !acquired {
        return Refused(Busy);
      }
      SoundMidway(was, Now());
      if !bound {
        Release();
        return Refused(Unbound);
      }
      if ledger == [] {
        Release();
        return Done;
      }
      var expected := ledger[|ledger| - 1].commit;
      SoundTip(Now());
      if tip != expected {
        var ok, ahead := IsAncestor(expected, tip);
        if !ok {
          Release();
          SoundMidway(was, Now());
          return Refused(Unreadable);
        }
        if ahead {
          expected := tip;
        }
      }
      assert expected == Expected(was);
      out := Publish(expected);
      ghost var ended := Now();
      Release();
      SoundMidway(ended, Now());
      PublishedUnlocked(was.(locked := true), Expected(was), out, ended, false);
      assert was.(locked := true).(locked := false) == was;
    }

    /** Importing the pool, in whatever order. Objects are content-addressed. */
    method ImportObjects(pool: map<Hash, Commit>) returns (stopped: bool)
      requires Valid() && locked && Sound(Now()) && Agree(commits, pool)
      modifies this`commits, this`history, this`cutShort
      ensures Valid() && old(history) <= history && Sound(Now())
      ensures Extends(old(commits), commits) && forall h | h in commits && h !in old(commits) ::
                h in pool && commits[h] == pool[h]
      ensures !stopped ==> commits == old(commits) + pool
      ensures (old(cutShort) ==> cutShort) && (stopped ==> cutShort)
    {
      hide Complete, Reaches, Next, Sound, Later;
      var rest := pool.Keys;
      while rest != {}
        invariant Valid() && locked && old(history) <= history && Sound(Now()) && rest <= pool.Keys
        invariant old(cutShort) ==> cutShort
        invariant forall h | h in old(commits) :: h in commits && commits[h] == old(commits)[h]
        invariant forall h | h in pool && h !in rest :: h in commits && commits[h] == pool[h]
        invariant forall h | h in commits && h !in old(commits) :: h in pool && commits[h] == pool[h]
        decreases rest
      {
        stopped := StopsHere();
        if stopped { return; }
        var h :| h in rest;
        ghost var was := Now();
        assert Agree(commits, pool);
        Import(h, pool[h]);
        SoundImported(was, Now());
        rest := rest - {h};
      }
      stopped := false;
    }

    /** `Lander.Land`: import, append the pending rows in one transaction, publish
        the last commit in the worktree that is bound to the task by then. The lock
        is held throughout, and never asked for again. */
    method Persist(pool: map<Hash, Commit>, chain: seq<Hash>, bound: bool) returns (out: Outcome)
      requires Valid() && locked && Sound(Now())
      requires Agree(commits, pool) && forall h | h in chain :: h in pool
      modifies this`commits, this`tip, this`work, this`ledger, this`history, this`cutShort
      ensures Valid() && old(history) <= history && Sound(Now()) && locked
      ensures Landed(old(Now()), pool, chain, bound, out, Now())
      ensures old(cutShort) ==> cutShort
      ensures !cutShort && bound && ReadyToLand(old(Now()), pool, chain) ==>
                out.Done? && Now() == Finished(Appended(old(Now()), pool, chain), chain[|chain| - 1])
    {
      hide Complete, Reaches, Next, Later, Sound, Published, Run;
      if chain == [] {
        return Done;
      }
      var stopped := ImportObjects(pool);
      if !stopped {
        stopped := StopsHere();
      }
      if stopped {
        return Stopped;
      }
      var rows := PendingRows(chain);
      ghost var imported := Now();
      Append(rows);
      SoundAppended(imported, Now(), rows);
      assert Now() == Appended(old(Now()), pool, chain);
      stopped := StopsHere();
      if stopped {
        return Stopped;
      }
      if !bound {
        return Refused(Unbound);
      }
      out := Publish(chain[|chain| - 1]);
    }

    /** `guardedLandPersister.Land`: the same under the operation lock. */
    method Land(pool: map<Hash, Commit>, chain: seq<Hash>, bound: bool) returns (out: Outcome)
      requires Valid() && !locked && Sound(Now())
      requires Agree(commits, pool) && forall h | h in chain :: h in pool
      modifies this`commits, this`tip, this`work, this`ledger, this`locked, this`history, this`cutShort
      ensures Valid() && old(history) <= history && Sound(Now()) && !locked
      ensures Landed(old(Now()).(locked := true), pool, chain, bound, out, Now().(locked := true))
      ensures old(cutShort) ==> cutShort
      ensures !cutShort && bound && ReadyToLand(old(Now()), pool, chain) ==>
                out.Done? && Now() == Finished(Appended(old(Now()), pool, chain), chain[|chain| - 1])
    {
      hide Complete, Reaches, Next, Later, Sound, Published, PartImported, Clear, Finished;
      ghost var was := Now();
      if ReadyToLand(was, pool, chain) { ClearUnlocked(Appended(was, pool, chain), chain[|chain| - 1], true); }
      var acquired := Acquire();
      if !acquired {
        return Refused(Busy);
      }
      SoundMidway(was, Now());
      out := Persist(pool, chain, bound);
      ghost var ended := Now();
      Release();
      SoundMidway(ended, Now());
    }

    /** `landAdapter.Land`: the guest commits the host does not have yet are landed
        as one batch, then a check completes whatever is pending. `guest` is the
        guest's history, parent first; `bound` and `still` tell whether the task's
        worktree resolves for the one and for the other. */
    method LandTask(pool: map<Hash, Commit>, guest: seq<Hash>, bound: bool, still: bool) returns (out: Outcome)
      requires Valid() && !locked && Sound(Now())
      requires Agree(commits, pool) && forall h | h in guest :: h in pool
      modifies this`commits, this`tip, this`work, this`ledger, this`locked, this`history, this`cutShort
      ensures Valid() && old(history) <= history && Sound(Now()) && !locked
      ensures out == Refused(NotAChain) <==> !Linked(pool, NewCommits(guest, old(ledger), old(commits)))
      ensures out == Refused(NotAChain) ==> Now() == old(Now())
      ensures Recorded(old(Now()), pool, NewCommits(guest, old(ledger), old(commits)), Now())
      ensures out.Done? ==> AllInLedger(ledger, NewCommits(guest, old(ledger), old(commits)))
      ensures out.Done? ==> still && (ledger != [] ==> Quiet(Now()))
      ensures NewCommits(guest, old(ledger), old(commits)) == [] && still ==> Checked(old(Now()), out, Now())
      ensures NewCommits(guest, old(ledger), old(commits)) == [] && !cutShort && still && ReadyToCheck(old(Now())) ==>
                out.Done? && Now() == Finished(old(Now()), Expected(old(Now())))
      ensures old(cutShort) ==> cutShort
      ensures var chain := NewCommits(guest, old(ledger), old(commits));
              !cutShort && bound && still && Linked(pool, chain) && ReadyToLand(old(Now()), pool, chain) ==>
                out.Done? && Now() == Finished(Appended(old(Now()), pool, chain), chain[|chain| - 1])
    {
      hide Complete, Reaches, Next, Later, Sound, Run, Landed, Checked, Clear, Finished, Linked, Published, Recorded,
           AllInLedger, InLedger;
      ghost var start := Now();
      var chain := NewCommits(guest, ledger, commits);
      NewCommitsAre(guest, ledger, commits);
      NothingRecorded(start, pool);
      NothingIsLinked(pool);
      if !Linked(pool, chain) {
        RecordedMore(start, pool, chain);
        return Refused(NotAChain);
      }
      if chain != [] {
        out := Land(pool, chain, bound);
        LandRecords(start.(locked := true), pool, chain, bound, out, Now().(locked := true));
        if !out.Done? {
          return;
        }
      }
      ghost var landed := Now();
      if ReadyToLand(start, pool, chain) {
        FinishedStaysFinished(Appended(start, pool, chain), chain[|chain| - 1]);
      }
      out := Check(still);
      if still {
        CheckRecords(start, pool, chain, landed, out, Now());
        if out.Done? && ledger != [] { CheckedIsQuiet(landed, Now()); }
      }
    }

    /** One thing that happens to the host, stopped wherever it may be. */
    method Undergo(op: Op, ghost world: Store, ghost stranded: set<Hash>)
      requires Valid() && !locked && Sound(Now()) && Extends(commits, world) && OpFits(op, world)
      requires stranded <= commits.Keys && forall h | h in stranded :: !LandRow(ledger, h)
      modifies this
      ensures Valid() && old(history) <= history && !locked && Sound(Now()) && Extends(commits, world)
      ensures stranded <= commits.Keys && forall h | h in stranded :: !LandRow(ledger, h)
      ensures op.EditOp? ==> Now() == old(Now()).(work := op.disk, staged := op.paths)
      ensures op.CommitOp? && old(tip) in op.commit.parents ==> tip == op.hash && op.hash in commits
    {
      hide Run, Sound, Later, Linked, NewCommits, InLedger, LandRow, KeepsRows, Checked;
      ghost var was := Now();
      match op
      case LandOp(pool, guest, bound, still) =>
        var _ := LandTask(pool, guest, bound, still);
        assert Extends(was.commits + pool, world);
        NewCommitsAre(guest, was.ledger, was.commits);
        StrandedStays(was.ledger, ledger, stranded);
      case CheckOp(bound) =>
        var out := Check(bound);
        if bound {
          CheckedLedger(was, out, Now());
          StrandedStays(was.ledger, ledger, stranded);
        }
      case EditOp(disk, paths) =>
        SoundTip(was);
        NativeEdit(disk, paths);
        SoundMidway(was, Now());
      case CommitOp(h, c) =>
        if tip in c.parents {
          NativeCommit(h, c);
          StepStaysSound(was, Now());
          NativeRowsStrand(was.ledger, h, stranded);
        }
    }

    /** Any sequence of lands, checks and native work, each stopped wherever it may
        be: every state the host goes through is sound, and each is a later state
        of every one before it. A commit the store has and the ledger has not gets
        no row from any later land. `world` is what each hash stands for. */
    method Operate(ops: seq<Op>, ghost world: Store)
      requires Valid() && !locked && Sound(history[0]) && Sound(Now()) && Extends(commits, world)
      requires forall i | 0 <= i < |ops| :: OpFits(ops[i], world)
      modifies this
      ensures Valid() && old(history) <= history && !locked
      ensures forall i, j | 0 <= i <= j < |history| :: Sound(history[j]) && Later(history[i], history[j])
      ensures forall h | h in old(commits) && !InLedger(old(ledger), h) :: !LandRow(ledger, h)
    {
      hide Run, Sound, Later, InLedger, LandRow, OpFits, Extends;
      ghost var stranded := set h | h in commits && !InLedger(ledger, h);
      NoRowNoLandRow(ledger, stranded);
      for n := 0 to |ops|
        invariant Valid() && old(history) <= history && !locked && Sound(Now()) && Extends(commits, world)
        invariant stranded <= commits.Keys && forall h | h in stranded :: !LandRow(ledger, h)
      {
        Undergo(ops[n], world, stranded);
      }
      assert history[0] == old(history)[0] by { RunIsNonEmpty(old(history)); }
      forall i, j | 0 <= i <= j < |history| ensures Sound(history[j]) && Later(history[i], history[j]) {
        RunIsSafe(history, i, j);
      }
    }

    method PendingRows(chain: seq<Hash>) returns (rows: seq<Row>)
      ensures rows == Rows(chain)
    {
      rows := [];
      for i := 0 to |chain|
        invariant rows == Rows(chain)[..i]
      {
        rows := rows + [Row(chain[i], FromLand, Pending)];
      }
    }
  }

  /** One thing that happens to a host. */
  datatype Op =
    | LandOp(pool: map<Hash, Commit>, guest: seq<Hash>, bound: bool, still: bool)
    | CheckOp(bound: bool)
    | EditOp(disk: Disk, paths: set<string>)
    | CommitOp(hash: Hash, commit: Commit)

  /** Objects are content-addressed: a hash stands for one commit. */
  ghost predicate OpFits(op: Op, world: Store) {
    match op
    case LandOp(pool, guest, _, _) => Extends(pool, world) && forall h | h in guest :: h in pool
    case CommitOp(h, c) => h in world && world[h] == c
    case _ => true
  }

  lemma RunIsNonEmpty(h: seq<State>)
    requires Run(h)
    ensures |h| > 0
  {
  }

  /** A land has recorded the commit. */
  ghost predicate LandRow(ledger: seq<Row>, h: Hash) {
    exists r | r in ledger :: r.commit == h && r.origin == FromLand
  }

  lemma NoRowNoLandRow(ledger: seq<Row>, hs: set<Hash>)
    requires forall h | h in hs :: !InLedger(ledger, h)
    ensures forall h | h in hs :: !LandRow(ledger, h)
  {
  }

  lemma StrandedStays(a: seq<Row>, b: seq<Row>, hs: set<Hash>)
    requires KeepsRows(a, b) && forall n | |a| <= n < |b| :: b[n].commit !in hs
    requires forall h | h in hs :: !LandRow(a, h)
    ensures forall h | h in hs :: !LandRow(b, h)
  {
    forall h, r | h in hs && r in b && r.commit == h ensures r.origin != FromLand {
      var n :| 0 <= n < |b| && b[n] == r;
      assert n < |a| && a[n] in a;
      assert !LandRow(a, h);
    }
  }

  lemma NativeRowsStrand(a: seq<Row>, c: Hash, hs: set<Hash>)
    requires forall h | h in hs :: !LandRow(a, h)
    ensures forall h | h in hs :: !LandRow(a + [Row(c, FromHost, Delivered)], h)
  {
  }
}
