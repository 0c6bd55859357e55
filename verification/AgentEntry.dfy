/** The agent instruction files `mgit init` writes ahead of the base, and how it
    takes them back. */
module AgentEntry {
  import opened Text

  /** What a path can be. A link leads, through any further links, to the path `end`,
      which may be missing. `Other` is a directory, a loop or another kind of node. */
  datatype Node = Regular(data: string, readable: bool, writable: bool) | Link(end: string) | Other

  /** What there is, by path. */
  type Disk = map<string, Node>

  /** A write of the entry that breaks off: the number of the write and what it leaves. */
  datatype Fault = NoFault | Cut(write: nat, left: string)

  /** Where no file can be created, whether HYPERSWE.md exists, and what breaks off. */
  datatype World = World(sealed: set<string>, hyperswe: bool, fault: Fault)

  const MGIT := "MGIT.md"
  const CLAUDE := "CLAUDE.md"
  const AGENTS := "AGENTS.md"
  const NAMES := [MGIT, CLAUDE, AGENTS]

  const CLAUDE_POINTER := "@MGIT.md"
  // Put together from short literals, which the verifier reasons about more easily.
  const AGENTS_POINTER := "This project " + "uses mgit " + "for task-tagged " + "commits and "
                          + "sandboxed work; " + "see MGIT.md " + "for instructions."

  // ----- reading and writing -----

  function End(d: Disk, p: string): string {
    if p in d && d[p].Link? then d[p].end else p
  }

  /** Links lead to their ends. */
  ghost predicate Resolved(d: Disk) {
    forall p | p in d && d[p].Link? :: !(d[p].end in d && d[d[p].end].Link?)
  }

  datatype Reading = Missing | Failed | Data(data: string)

  /** `os.ReadFile`, which follows links. */
  function Read(d: Disk, p: string): Reading {
    var r := End(d, p);
    if r !in d then Missing else if d[r].Regular? && d[r].readable then Data(d[r].data) else Failed
  }

  predicate CanWrite(d: Disk, w: World, p: string) {
    var r := End(d, p);
    if r in d then d[r].Regular? && d[r].writable else r !in w.sealed
  }

  function Put(d: Disk, p: string, data: string): Disk {
    var r := End(d, p);
    d[r := if r in d && d[r].Regular? then d[r].(data := data) else Regular(data, true, true)]
  }

  datatype Step = Step(disk: Disk, ok: bool)

  /** `os.WriteFile`, which follows links: it fails before it changes anything, or
      breaks off, or writes all of it. */
  function Written(d: Disk, w: World, n: nat, p: string, data: string): Step {
    if !CanWrite(d, w, p) then Step(d, false)
    else if w.fault.Cut? && w.fault.write == n then Step(Put(d, p, w.fault.left), false)
    else Step(Put(d, p, data), true)
  }

  // ----- the entry -----

  predicate HasLine(data: string, line: string) {
    exists l | l in Split(data, '\n') :: TrimSpace(l) == line
  }

  function WithLine(data: string, line: string): string {
    if data == "" then line + "\n"
    else if data[|data| - 1] == '\n' then data + line + "\n"
    else data + "\n" + line
  }

  function Doc(d: Disk, w: World, want: string): Step {
    if Read(d, MGIT) == Data(want) then Step(d, true) else Written(d, w, 0, MGIT, want)
  }

  /** `addPointerLine`, whose write would be the n-th. */
  function Pointed(d: Disk, w: World, n: nat, p: string, line: string): Step {
    var r := Read(d, p);
    if r.Failed? then Step(d, false)
    else
      var existing := if r.Data? then r.data else "";
      if HasLine(existing, line) then Step(d, true) else Written(d, w, n, p, WithLine(existing, line))
  }

  /** `writeAgentEntry`: the first error ends it. */
  function Entered(d: Disk, w: World, want: string): Step {
    var doc := Doc(d, w, want);
    if !doc.ok || w.hyperswe then doc
    else
      var claude := Pointed(doc.disk, w, 1, CLAUDE, CLAUDE_POINTER);
      if !claude.ok then claude else Pointed(claude.disk, w, 2, AGENTS, AGENTS_POINTER)
  }

  // ----- taking it back -----

  /** What undoing makes of one name, given the disk as it was and as it is. Its own
      writes do not break off. */
  function Restored(was: Disk, now: Disk, w: World, name: string): Disk {
    if name !in was then
      if name in now && now[name].Regular? then now - {name} else now
    else match Read(was, name)
      case Data(data) =>
        if Read(now, name) == Data(data) || !CanWrite(now, w, name) then now else Put(now, name, data)
      case _ => now
  }

  function Undone(was: Disk, now: Disk, w: World): Disk {
    Restored(was, Restored(was, Restored(was, now, w, MGIT), w, CLAUDE), w, AGENTS)
  }

  // ----- the operations -----

  class Root {
    var disk: Disk
    const world: World

    method WriteFile(n: nat, name: string, data: string) returns (ok: bool)
      modifies this
      ensures Step(disk, ok) == Written(old(disk), world, n, name, data)
    {
      ok := CanWrite(disk, world, name);
      if ok {
        var whole := !(world.fault.Cut? && world.fault.write == n);
        disk := Put(disk, name, if whole then data else world.fault.left);
        ok := whole;
      }
    }

    method AddPointerLine(n: nat, name: string, line: string) returns (ok: bool)
      modifies this
      ensures Step(disk, ok) == Pointed(old(disk), world, n, name, line)
    {
      hide Split, TrimSpace, WithLine, Written;
      var r := Read(disk, name);
      if r.Failed? {
        return false;
      }
      var existing := if r.Data? then r.data else "";
      var lines := Split(existing, '\n');
      for i := 0 to |lines|
        invariant disk == old(disk)
        invariant forall l | l in lines[..i] :: TrimSpace(l) != line
      {
        if TrimSpace(lines[i]) == line {
          return true;
        }
      }
      assert lines[..|lines|] == lines;
      ok := WriteFile(n, name, WithLine(existing, line));
    }

    method WriteAgentEntry(want: string) returns (ok: bool)
      modifies this
      ensures Step(disk, ok) == Entered(old(disk), world, want)
    {
      hide Pointed, Written;
      if Read(disk, MGIT) != Data(want) {
        ok := WriteFile(0, MGIT, want);
        if !ok {
          return;
        }
      }
      if world.hyperswe {
        return true;
      }
      ok := AddPointerLine(1, CLAUDE, CLAUDE_POINTER);
      if !ok {
        return;
      }
      ok := AddPointerLine(2, AGENTS, AGENTS_POINTER);
    }

    /** The undo of `snapshotAgentFiles`, for the files as they were saved. */
    method Undo(saved: map<string, Reading>, existed: set<string>, ghost was: Disk)
      requires forall name | name in NAMES ::
                 name in saved && saved[name] == Read(was, name) && (name in existed <==> name in was)
      modifies this
      ensures disk == Undone(was, old(disk), world)
    {
      hide Read, CanWrite, Put;
      ghost var start := disk;
      for i := 0 to 3
        invariant disk == UndoneUpTo(was, start, world, i)
      {
        var name := NAMES[i];
        assert name in NAMES;
        if name !in existed {
          if name in disk && disk[name].Regular? {
            disk := disk - {name};
          }
        } else if saved[name].Data? {
          if Read(disk, name) != saved[name] && CanWrite(disk, world, name) {
            disk := Put(disk, name, saved[name].data);
          }
        }
      }
      AllUndone(was, start, world);
    }

    /** A failed `mgit init`: the files are saved, written and taken back. */
    method FailedInit(want: string)
      requires Resolved(disk)
      modifies this
      ensures disk == old(disk) <==> Recoverable(old(disk), world, want)
    {
      var saved, existed: set<string> := map[], {};
      for i := 0 to |NAMES|
        invariant disk == old(disk) && existed <= disk.Keys
        invariant forall j | 0 <= j < i ::
          NAMES[j] in saved && saved[NAMES[j]] == Read(disk, NAMES[j]) && (NAMES[j] in existed <==> NAMES[j] in disk)
      {
        var name := NAMES[i];
        saved := saved[name := Read(disk, name)];
        if name in disk {
          existed := existed + {name};
        }
      }
      ghost var was := disk;
      var _ := WriteAgentEntry(want);
      Undo(saved, existed, was);
      UndoIsExact(was, world, want);
    }
  }

  ghost function UndoneUpTo(was: Disk, now: Disk, w: World, i: nat): Disk
    requires i <= 3
  {
    if i == 0 then now else Restored(was, UndoneUpTo(was, now, w, i - 1), w, NAMES[i - 1])
  }

  lemma AllUndone(was: Disk, now: Disk, w: World)
    ensures UndoneUpTo(was, now, w, 3) == Undone(was, now, w)
  {
    hide Restored;
    assert NAMES[0] == MGIT && NAMES[1] == CLAUDE && NAMES[2] == AGENTS;
    assert UndoneUpTo(was, now, w, 0) == now;
    assert UndoneUpTo(was, now, w, 1) == Restored(was, now, w, MGIT);
    assert UndoneUpTo(was, now, w, 2) == Restored(was, Restored(was, now, w, MGIT), w, CLAUDE);
  }

  // ----- what is taken back -----

  ghost predicate Same(a: Disk, b: Disk, p: string) {
    (p in a <==> p in b) && (p in a ==> a[p] == b[p])
  }

  /** `now` is `was` after writes through the three names: a file may have other data
      or be new, nothing else differs. */
  ghost predicate Rewritten(was: Disk, now: Disk) {
    forall p :: Same(was, now, p) || (IsEnd(was, p) && OtherData(was, now, p))
  }

  ghost predicate IsEnd(d: Disk, p: string) {
    exists name | name in NAMES :: End(d, name) == p
  }

  ghost predicate OtherData(was: Disk, now: Disk, p: string) {
    && p in now && now[p].Regular? && now[p].writable
    && if p in was then was[p].Regular? && was[p].(data := now[p].data) == now[p] else now[p].readable
  }

  lemma EndsStay(was: Disk, now: Disk, p: string)
    requires Rewritten(was, now)
    ensures End(now, p) == End(was, p)
  {
    assert Same(was, now, p) || (p in now && now[p].Regular?);
  }

  lemma PutRewrites(was: Disk, now: Disk, w: World, name: string, data: string)
    requires Rewritten(was, now) && name in NAMES && CanWrite(now, w, name)
    ensures Rewritten(was, Put(now, name, data))
  {
    EndsStay(was, now, name);
    var r, next := End(was, name), Put(now, name, data);
    assert IsEnd(was, r) && (Same(was, now, r) || OtherData(was, now, r));
    forall p | p != r ensures Same(was, next, p) || (IsEnd(was, p) && OtherData(was, next, p)) {
      assert Same(was, now, p) || (IsEnd(was, p) && OtherData(was, now, p));
    }
  }

  lemma EntryRewrites(d: Disk, w: World, want: string)
    ensures Rewritten(d, Doc(d, w, want).disk) && Rewritten(d, Entered(d, w, want).disk)
  {
    hide HasLine, WithLine, Rewritten, CanWrite, Put, Read;
    NothingRewritten(d);
    NamesAre();
    forall now, name, data | Rewritten(d, now) && name in NAMES && CanWrite(now, w, name) {
      PutRewrites(d, now, w, name, data);
    }
  }

  lemma NothingRewritten(d: Disk)
    ensures Rewritten(d, d)
  {
  }

  /** What a name leads to is not put back: it could not be read, or was missing and
      is none of the three names itself. */
  predicate Exposed(d: Disk, name: string) {
    var r := End(d, name);
    if r in d then !(d[r].Regular? && d[r].readable) else r !in NAMES
  }

  /** Undoing one name puts back what it leads to, unless it is exposed, and touches
      nothing else. */
  lemma OneIsPutBack(was: Disk, now: Disk, w: World, name: string)
    requires Resolved(was) && Rewritten(was, now) && name in NAMES
    ensures var next := Restored(was, now, w, name);
            && Rewritten(was, next)
            && (forall p | Same(was, now, p) :: Same(was, next, p))
            && (forall p | p != End(was, name) || Exposed(was, name) :: Same(now, next, p))
            && (name !in was || Read(was, name).Data? ==> Same(was, next, End(was, name)))
  {
    EndsStay(was, now, name);
    var r := End(was, name);
    var next := Restored(was, now, w, name);
    assert Same(was, now, r) || now[r].writable;
    forall p | p != r ensures Same(now, next, p) { }
    if name !in was || Read(was, name).Data? {
      assert Same(was, next, r);
    } else {
      assert next == now;
    }
  }

  /** Undoing is the identity exactly when nothing that is exposed was changed. */
  lemma PutBackIffUnexposed(was: Disk, now: Disk, w: World)
    requires Resolved(was) && Rewritten(was, now)
    ensures Undone(was, now, w) == was <==>
            forall name | name in NAMES && Exposed(was, name) :: Same(was, now, End(was, name))
  {
    hide Restored, Resolved, Read;
    var one := Restored(was, now, w, MGIT);
    var two := Restored(was, one, w, CLAUDE);
    var three := Restored(was, two, w, AGENTS);
    NamesAre();
    OneIsPutBack(was, now, w, MGIT);
    OneIsPutBack(was, one, w, CLAUDE);
    OneIsPutBack(was, two, w, AGENTS);
    forall name | name in NAMES && Exposed(was, name)
      ensures Same(now, three, End(was, name))
    {
      var r := End(was, name);
      assert Same(now, one, r) && Same(one, two, r) && Same(two, three, r);
    }
    if forall name | name in NAMES && Exposed(was, name) :: Same(was, now, End(was, name)) {
      forall p ensures Same(was, three, p) {
        if !Same(was, now, p) {
          var name :| name in NAMES && End(was, name) == p;
          EndIsPutBack(was, name);
        }
      }
      SameIsEqual(was, three);
    }
  }

  lemma NamesAre()
    ensures forall name | name in NAMES :: name == MGIT || name == CLAUDE || name == AGENTS
    ensures MGIT in NAMES && CLAUDE in NAMES && AGENTS in NAMES
  {
    assert NAMES[0] == MGIT && NAMES[1] == CLAUDE && NAMES[2] == AGENTS;
  }

  lemma SameIsEqual(a: Disk, b: Disk)
    requires forall p :: Same(a, b, p)
    ensures a == b
  {
    assert forall p :: p in a <==> p in b by {
      forall p ensures p in a <==> p in b { assert Same(a, b, p); }
    }
    forall p | p in a ensures a[p] == b[p] { assert Same(a, b, p); }
  }

  /** What is not exposed is read under its name, or is a missing name itself. */
  lemma EndIsPutBack(d: Disk, name: string)
    requires Resolved(d) && !Exposed(d, name)
    ensures var r := End(d, name); if r in d then Read(d, name).Data? else r in NAMES && End(d, r) == r
  {
  }

  // ----- when nothing exposed is changed -----

  /** The name leads to a missing path, none of the three, where a file can be made. */
  predicate Strays(d: Disk, w: World, name: string) {
    var r := End(d, name);
    r !in d && r !in NAMES && r !in w.sealed
  }

  /** The write of MGIT.md changes what it leads to. */
  predicate DocChanges(d: Disk, w: World, want: string) {
    var r, put := End(d, MGIT), if w.fault.Cut? && w.fault.write == 0 then w.fault.left else want;
    Read(d, MGIT) != Data(want) && CanWrite(d, w, MGIT) && (r in d ==> d[r].data != put)
  }

  /** Everything can be taken back: MGIT.md does not lead to a file that can be written
      but not read, whose data the write changes, and no name that is got to is a
      dangling link that leads past the three names to where a file can be made. */
  predicate Recoverable(d: Disk, w: World, want: string) {
    var doc := Doc(d, w, want);
    && !(Exposed(d, MGIT) && DocChanges(d, w, want))
    && (doc.ok && !w.hyperswe ==>
          && !Strays(d, w, CLAUDE)
          && (Pointed(doc.disk, w, 1, CLAUDE, CLAUDE_POINTER).ok ==> !Strays(d, w, AGENTS)))
  }

  ghost predicate Unharmed(was: Disk, now: Disk) {
    forall name | name in NAMES && Exposed(was, name) :: Same(was, now, End(was, name))
  }

  lemma DocHarmsIff(d: Disk, w: World, want: string)
    ensures Unharmed(d, Doc(d, w, want).disk) <==> !(Exposed(d, MGIT) && DocChanges(d, w, want))
  {
    NamesAre();
    var now := Doc(d, w, want).disk;
    forall p | p != End(d, MGIT) ensures Same(d, now, p) { }
  }

  /** A pointer line changes what is exposed exactly when its name strays. */
  lemma PointerHarmsIff(was: Disk, now: Disk, w: World, n: nat, name: string, line: string)
    requires Rewritten(was, now) && name in NAMES && line != ""
    ensures var next := Pointed(now, w, n, name, line).disk;
            && (Unharmed(was, now) && !Strays(was, w, name) ==> Unharmed(was, next))
            && (Strays(was, w, name) ==> !Unharmed(was, next))
            && (!Unharmed(was, now) ==> !Unharmed(was, next))
  {
    hide WithLine, TrimSpace, Split;
    EndsStay(was, now, name);
    var next, r := Pointed(now, w, n, name, line).disk, End(was, name);
    assert !HasLine("", line) by { EmptyHasNoLine(line); }
    forall p | p != r ensures Same(now, next, p) { }
    assert Same(was, now, r) || OtherData(was, now, r);
    if Strays(was, w, name) {
      assert Exposed(was, name) && r in next;
    } else if Exposed(was, name) && Same(was, now, r) {
      assert next == now;
    }
    if other :| other in NAMES && Exposed(was, other) && !Same(was, now, End(was, other)) {
      if End(was, other) == r {
        assert if r in was then next == now else r in next;
      }
    }
  }

  lemma EmptyHasNoLine(line: string)
    requires line != ""
    ensures !HasLine("", line)
  {
  }

  /** Saving, writing and undoing is the identity on everything exactly when the files
      are recoverable, whichever write of the entry breaks off. */
  lemma UndoIsExact(d: Disk, w: World, want: string)
    requires Resolved(d)
    ensures Undone(d, Entered(d, w, want).disk, w) == d <==> Recoverable(d, w, want)
  {
    hide Undone, Pointed, Doc, Exposed, Strays, DocChanges, Unharmed, Rewritten;
    EntryRewrites(d, w, want);
    PutBackIffUnexposed(d, Entered(d, w, want).disk, w);
    UnharmedIs(d, Entered(d, w, want).disk);
    DocHarmsIff(d, w, want);
    NamesAre();
    PointersAreLines();
    var doc := Doc(d, w, want);
    PointerHarmsIff(d, doc.disk, w, 1, CLAUDE, CLAUDE_POINTER);
    var claude := Pointed(doc.disk, w, 1, CLAUDE, CLAUDE_POINTER);
    if doc.ok && !w.hyperswe && claude.ok {
      PointedRewrites(d, doc.disk, w, 1, CLAUDE, CLAUDE_POINTER);
      PointerHarmsIff(d, claude.disk, w, 2, AGENTS, AGENTS_POINTER);
    }
  }

  /** A dangling CLAUDE.md that leads past the three names: the undo leaves the file
      that was made at its end. */
  lemma ADanglingLinkLeavesAFile(end: string, want: string)
    requires end !in NAMES
    ensures var d: Disk := map[CLAUDE := Link(end)];
            && var w := World({}, false, NoFault);
            Resolved(d) && !Recoverable(d, w, want) && Undone(d, Entered(d, w, want).disk, w) != d
  {
    hide Pointed, Entered, Undone, HasLine, WithLine;
    NamesAre();
    var d: Disk, w := map[CLAUDE := Link(end)], World({}, false, NoFault);
    assert MGIT[0] != CLAUDE[0];
    assert Strays(d, w, CLAUDE) && Doc(d, w, want).ok;
    UndoIsExact(d, w, want);
  }

  /** One that leads to a missing AGENTS.md is taken back: that name is undone too. */
  lemma ALinkToAnotherNameIsTakenBack(want: string)
    ensures var d: Disk := map[CLAUDE := Link(AGENTS)];
            && var w := World({}, false, NoFault);
            Resolved(d) && Undone(d, Entered(d, w, want).disk, w) == d
  {
    hide Pointed, Entered, Undone, HasLine, WithLine;
    NamesAre();
    var d: Disk, w := map[CLAUDE := Link(AGENTS)], World({}, false, NoFault);
    assert MGIT[0] != CLAUDE[0] && AGENTS[0] != CLAUDE[0];
    UndoIsExact(d, w, want);
  }

  lemma UnharmedIs(was: Disk, now: Disk)
    ensures Unharmed(was, now) <==> forall name | name in NAMES && Exposed(was, name) :: Same(was, now, End(was, name))
  {
  }

  lemma PointedRewrites(was: Disk, now: Disk, w: World, n: nat, name: string, line: string)
    requires Rewritten(was, now) && name in NAMES
    ensures Rewritten(was, Pointed(now, w, n, name, line).disk)
  {
    hide HasLine, WithLine, Rewritten, CanWrite, Put, Read;
    forall data | CanWrite(now, w, name) { PutRewrites(was, now, w, name, data); }
  }

  // ----- adding a line -----

  /** A line of its own: one line, no blank at either end. */
  predicate IsLine(line: string) {
    line != "" && '\n' !in line && !IsSpace(line[0]) && !IsSpace(line[|line| - 1])
  }

  /** Once added, the line is there. */
  lemma AddedLineIsThere(data: string, line: string)
    requires IsLine(line)
    ensures HasLine(WithLine(data, line), line)
  {
    hide Split, TrimSpace, IsSpace;
    assert TrimSpace(line) == line by { LineIsTrimmed(line); }
    SplitOne(line, '\n');
    SplitOne("", '\n');
    SplitJoins(line, "", '\n');
    assert line + "\n" + "" == line + "\n";
    var alone := Split(line + "\n", '\n');
    assert alone[0] == line;
    if data == "" {
      assert line in alone;
    } else if data[|data| - 1] == '\n' {
      var front := data[..|data| - 1];
      assert data == front + "\n";
      assert WithLine(data, line) == front + "\n" + (line + "\n");
      SplitJoins(front, line + "\n", '\n');
      assert line in Split(front, '\n') + alone;
    } else {
      SplitJoins(data, line, '\n');
      assert (Split(data, '\n') + [line])[|Split(data, '\n')|] == line;
    }
  }

  /** A file that ended its last line still does, one that did not still does not, and a
      new file does. */
  lemma LastLineStaysAsItIs(data: string, line: string)
    requires IsLine(line)
    ensures var next := WithLine(data, line);
            next != "" && (next[|next| - 1] == '\n' <==> data == "" || data[|data| - 1] == '\n')
  {
    hide IsSpace;
    assert line[|line| - 1] in line;
  }

  lemma LineIsTrimmed(line: string)
    requires IsLine(line)
    ensures TrimSpace(line) == line
  {
    assert TrimLeftSpace(line) == line;
  }

  lemma PointersAreLines()
    ensures IsLine(CLAUDE_POINTER) && IsLine(AGENTS_POINTER)
  {
    assert CLAUDE_POINTER[0] == '@' && CLAUDE_POINTER[7] == 'd';
    assert AGENTS_POINTER[0] == 'T';
    assert AGENTS_POINTER[|AGENTS_POINTER| - 1] == "for instructions."[16] == '.';
  }

  // ----- a second run -----

  /** The line is still there when another one is added. */
  lemma LineStays(data: string, line: string, more: string)
    requires HasLine(data, line) && line != ""
    ensures HasLine(WithLine(data, more), line)
  {
    hide TrimSpace;
    var l :| l in Split(data, '\n') && TrimSpace(l) == line;
    BlankIsBlank();
    if data != "" && data[|data| - 1] == '\n' {
      var front := data[..|data| - 1];
      assert data == front + "\n" + "" && WithLine(data, more) == front + "\n" + (more + "\n");
      SplitJoins(front, "", '\n');
      SplitJoins(front, more + "\n", '\n');
    } else if data != "" {
      SplitJoins(data, more, '\n');
    }
  }

  lemma BlankIsBlank()
    ensures TrimSpace("") == "" && Split("", '\n') == [""]
  {
  }

  ghost predicate Points(d: Disk, name: string, line: string) {
    Read(d, name).Data? && HasLine(Read(d, name).data, line)
  }

  /** Without a fault: what the name leads to has the line or nothing is changed, and
      nothing else is touched. What was there stays as a prefix, with its lines. */
  lemma PointedPoints(d: Disk, w: World, n: nat, name: string, line: string)
    requires w.fault == NoFault && IsLine(line) && (End(d, name) in d ==> !d[End(d, name)].Link?)
    ensures var next := Pointed(d, w, n, name, line);
            && (forall p | p != End(d, name) :: Same(d, next.disk, p))
            && End(next.disk, name) == End(d, name)
            && (!next.ok ==> next.disk == d) && (next.ok ==> Points(next.disk, name, line))
  {
    hide HasLine, WithLine;
    EmptyHasNoLine(line);
    AddedLineIsThere("", line);
    if Read(d, name).Data? {
      AddedLineIsThere(Read(d, name).data, line);
    }
  }

  /** What is read elsewhere keeps its lines and its beginning. */
  lemma PointedKeeps(d: Disk, w: World, n: nat, name: string, line: string, p: string, other: string)
    requires w.fault == NoFault && other != "" && p in d && d[p].Regular?
    ensures var next := Pointed(d, w, n, name, line).disk;
            && p in next && next[p].Regular? && next[p] == d[p].(data := next[p].data)
            && d[p].data <= next[p].data && (HasLine(d[p].data, other) ==> HasLine(next[p].data, other))
            && (next[p] != d[p] ==> p == End(d, name) && d[p].readable && d[p].writable)
  {
    hide HasLine, WithLine;
    if Read(d, name).Data? {
      BeginningStays(Read(d, name).data, line);
      if HasLine(Read(d, name).data, other) { LineStays(Read(d, name).data, other, line); }
    }
  }

  lemma BeginningStays(data: string, line: string)
    ensures data <= WithLine(data, line)
  {
  }

  /** A pointer line depends on nothing but what its name leads to. */
  lemma PointedIsLocal(d: Disk, e: Disk, w: World, n: nat, name: string, line: string)
    requires End(d, name) == End(e, name) && Same(d, e, End(d, name))
    ensures Pointed(d, w, n, name, line).ok == Pointed(e, w, n, name, line).ok
    ensures Same(Pointed(d, w, n, name, line).disk, Pointed(e, w, n, name, line).disk, End(d, name))
  {
    hide HasLine, WithLine;
  }

  /** Writing MGIT.md again puts back what the first run wrote there, and nothing else. */
  lemma DocResets(d: Disk, w: World, want: string, e: Disk)
    requires w.fault == NoFault && Doc(d, w, want).ok
    requires var doc, r := Doc(d, w, want).disk, End(d, MGIT);
             && End(e, MGIT) == r && r in doc && doc[r].Regular? && r in e && e[r].Regular?
             && e[r] == doc[r].(data := e[r].data) && (e[r] != doc[r] ==> e[r].writable)
    ensures Doc(e, w, want).ok && Doc(e, w, want).disk == e[End(d, MGIT) := Doc(d, w, want).disk[End(d, MGIT)]]
  {
  }

  lemma DocWrites(d: Disk, w: World, want: string)
    requires w.fault == NoFault
    ensures var doc, r := Doc(d, w, want), End(d, MGIT);
            && (forall p | p != r :: Same(d, doc.disk, p))
            && (!doc.ok ==> doc.disk == d) && (doc.ok ==> r in doc.disk && doc.disk[r].Regular?)
  {
  }

  lemma EndIsNoLink(was: Disk, now: Disk, name: string)
    requires Resolved(was) && Rewritten(was, now)
    ensures End(now, name) == End(was, name) && (End(was, name) in now ==> !now[End(was, name)].Link?)
  {
    EndsStay(was, now, name);
    var r := End(was, name);
    assert Same(was, now, r) || OtherData(was, now, r);
  }

  lemma PointsAgain(d: Disk, w: World, n: nat, name: string, line: string)
    requires Points(d, name, line)
    ensures Pointed(d, w, n, name, line) == Step(d, true)
  {
  }

  /** What is pointed at in a file that only gained lines is still pointed at. */
  lemma PointsStill(d: Disk, w: World, n: nat, name: string, line: string, other: string, more: string)
    requires w.fault == NoFault && line != "" && Points(d, name, line)
    requires End(Pointed(d, w, n, other, more).disk, name) == End(d, name)
    ensures Points(Pointed(d, w, n, other, more).disk, name, line)
  {
    hide HasLine, Pointed;
    PointedKeeps(d, w, n, other, more, End(d, name), line);
  }

  /** The second run over both pointers, where the first got to both of them. */
  lemma SecondPointers(d: Disk, w: World, doc: Disk, r: string)
    requires Resolved(d) && w.fault == NoFault && Rewritten(d, doc) && r in doc && doc[r].Regular?
    requires Pointed(doc, w, 1, CLAUDE, CLAUDE_POINTER).ok
    ensures var claude := Pointed(doc, w, 1, CLAUDE, CLAUDE_POINTER).disk;
            && var e := Pointed(claude, w, 2, AGENTS, AGENTS_POINTER).disk;
            && r in e && e[r].Regular? && e[r] == doc[r].(data := e[r].data) && (e[r] != doc[r] ==> e[r].writable)
            && var again := Pointed(e[r := doc[r]], w, 1, CLAUDE, CLAUDE_POINTER);
            && again.ok && Pointed(again.disk, w, 2, AGENTS, AGENTS_POINTER).disk == e
  {
    hide Pointed, HasLine, IsLine, Rewritten, Points, Resolved;
    PointersAreLines();
    NamesAre();
    LinesAreNotEmpty();
    var claude := Pointed(doc, w, 1, CLAUDE, CLAUDE_POINTER).disk;
    var agents := Pointed(claude, w, 2, AGENTS, AGENTS_POINTER);
    var e := agents.disk;
    var one, two := End(d, CLAUDE), End(d, AGENTS);
    PointedRewrites(d, doc, w, 1, CLAUDE, CLAUDE_POINTER);
    PointedRewrites(d, claude, w, 2, AGENTS, AGENTS_POINTER);
    EndIsNoLink(d, doc, CLAUDE);
    EndIsNoLink(d, claude, CLAUDE);
    EndIsNoLink(d, claude, AGENTS);
    EndIsNoLink(d, e, CLAUDE);
    EndIsNoLink(d, e, AGENTS);
    PointedPoints(doc, w, 1, CLAUDE, CLAUDE_POINTER);
    PointedPoints(claude, w, 2, AGENTS, AGENTS_POINTER);
    PointedKeeps(doc, w, 1, CLAUDE, CLAUDE_POINTER, r, CLAUDE_POINTER);
    PointedKeeps(claude, w, 2, AGENTS, AGENTS_POINTER, r, CLAUDE_POINTER);
    PointsStill(claude, w, 2, CLAUDE, CLAUDE_POINTER, AGENTS, AGENTS_POINTER);
    var start := e[r := doc[r]];
    ResetRewrites(d, doc, e, r);
    EndIsNoLink(d, start, CLAUDE);
    var again := Pointed(start, w, 1, CLAUDE, CLAUDE_POINTER);
    var half := e[r := claude[r]];
    assert again.ok && again.disk == half by {
      if one == r {
        PointedIsLocal(doc, start, w, 1, CLAUDE, CLAUDE_POINTER);
        PointedPoints(start, w, 1, CLAUDE, CLAUDE_POINTER);
        forall p ensures Same(again.disk, half, p) { assert p != r ==> Same(start, again.disk, p); }
        SameIsEqual(again.disk, half);
      } else {
        assert Same(doc, claude, r);
        PointsElsewhere(e, start, r, CLAUDE, CLAUDE_POINTER);
        PointsAgain(start, w, 1, CLAUDE, CLAUDE_POINTER);
      }
    }
    if two == r {
      forall p ensures Same(half, claude, p) { assert p != r ==> Same(claude, e, p); }
      SameIsEqual(half, claude);
    } else {
      assert Same(claude, e, r);
      assert half == e;
      if agents.ok {
        PointsAgain(e, w, 2, AGENTS, AGENTS_POINTER);
      }
    }
  }

  lemma LinesAreNotEmpty()
    ensures CLAUDE_POINTER != "" && AGENTS_POINTER != ""
  {
    PointersAreLines();
  }

  lemma ResetRewrites(d: Disk, doc: Disk, e: Disk, r: string)
    requires Rewritten(d, doc) && Rewritten(d, e) && r in doc
    ensures Rewritten(d, e[r := doc[r]])
  {
    var start := e[r := doc[r]];
    forall p ensures Same(d, start, p) || (IsEnd(d, p) && OtherData(d, start, p)) {
      assert Same(d, doc, p) || (IsEnd(d, p) && OtherData(d, doc, p));
      assert Same(d, e, p) || (IsEnd(d, p) && OtherData(d, e, p));
    }
  }

  lemma PointsElsewhere(e: Disk, start: Disk, r: string, name: string, line: string)
    requires Points(e, name, line) && r in start && start == e[r := start[r]] && End(start, name) == End(e, name) != r
    ensures Points(start, name, line)
  {
  }

  /** Writing the entry twice is writing it once, from every starting state, however
      the names lead to one another. */
  lemma EnteringTwiceIsOnce(d: Disk, w: World, want: string)
    requires Resolved(d) && w.fault == NoFault
    ensures Entered(Entered(d, w, want).disk, w, want).disk == Entered(d, w, want).disk
  {
    hide Pointed, Doc, HasLine, IsLine, Rewritten, CanWrite, Put, Read;
    EntryRewrites(d, w, want);
    DocWrites(d, w, want);
    var doc, r, e := Doc(d, w, want), End(d, MGIT), Entered(d, w, want).disk;
    if doc.ok {
      EndsStay(d, doc.disk, MGIT);
      EndsStay(d, e, MGIT);
      DocResets(d, w, want, doc.disk);
      assert doc.disk[r := doc.disk[r]] == doc.disk;
      var claude := Pointed(doc.disk, w, 1, CLAUDE, CLAUDE_POINTER);
      if !w.hyperswe && !claude.ok {
        FailureChangesNothing(d, doc.disk, w);
      }
      if !w.hyperswe && claude.ok {
        SecondPointers(d, w, doc.disk, r);
        DocResets(d, w, want, e);
      }
    }
  }

  lemma FailureChangesNothing(d: Disk, doc: Disk, w: World)
    requires Resolved(d) && Rewritten(d, doc) && w.fault == NoFault && !Pointed(doc, w, 1, CLAUDE, CLAUDE_POINTER).ok
    ensures Pointed(doc, w, 1, CLAUDE, CLAUDE_POINTER).disk == doc
  {
    hide Pointed, IsLine, Rewritten;
    PointersAreLines();
    EndIsNoLink(d, doc, CLAUDE);
    PointedPoints(doc, w, 1, CLAUDE, CLAUDE_POINTER);
  }

  /** What a file held stays its beginning, except for the one MGIT.md leads to. */
  lemma EnteringKeepsTheBeginning(d: Disk, w: World, want: string, p: string)
    requires w.fault == NoFault && p in d && d[p].Regular? && p != End(d, MGIT)
    ensures var e := Entered(d, w, want).disk; p in e && e[p].Regular? && d[p].data <= e[p].data
  {
    hide Pointed, Doc;
    DocWrites(d, w, want);
    LinesAreNotEmpty();
    var doc := Doc(d, w, want).disk;
    assert Same(d, doc, p);
    PointedKeeps(doc, w, 1, CLAUDE, CLAUDE_POINTER, p, CLAUDE_POINTER);
    PointedKeeps(Pointed(doc, w, 1, CLAUDE, CLAUDE_POINTER).disk, w, 2, AGENTS, AGENTS_POINTER, p, CLAUDE_POINTER);
  }

  /** After an entry without an error the names lead to what they should: both
      instruction files have their line, unless HYPERSWE.md exists, and MGIT.md has its
      text, unless it leads to one of those files. */
  lemma EntryIsThere(d: Disk, w: World, want: string)
    requires Resolved(d) && w.fault == NoFault && Entered(d, w, want).ok
    ensures var e := Entered(d, w, want).disk;
            && (!w.hyperswe ==> Points(e, CLAUDE, "@MGIT.md") && Points(e, AGENTS, AGENTS_POINTER))
            && (w.hyperswe || (End(d, MGIT) != End(d, CLAUDE) && End(d, MGIT) != End(d, AGENTS)) ==>
                  End(d, MGIT) in e && e[End(d, MGIT)].Regular? && e[End(d, MGIT)].data == want)
  {
    hide Pointed, Doc, HasLine, IsLine, Rewritten, Points, Resolved;
    PointersAreLines();
    LinesAreNotEmpty();
    NamesAre();
    EntryRewrites(d, w, want);
    DocHasText(d, w, want);
    var doc := Doc(d, w, want).disk;
    if !w.hyperswe {
      var claude := Pointed(doc, w, 1, CLAUDE, CLAUDE_POINTER).disk;
      PointedRewrites(d, doc, w, 1, CLAUDE, CLAUDE_POINTER);
      PointedRewrites(d, claude, w, 2, AGENTS, AGENTS_POINTER);
      EndIsNoLink(d, doc, CLAUDE);
      EndIsNoLink(d, claude, CLAUDE);
      EndIsNoLink(d, claude, AGENTS);
      EndIsNoLink(d, Entered(d, w, want).disk, CLAUDE);
      PointedPoints(doc, w, 1, CLAUDE, CLAUDE_POINTER);
      PointedPoints(claude, w, 2, AGENTS, AGENTS_POINTER);
      PointsStill(claude, w, 2, CLAUDE, CLAUDE_POINTER, AGENTS, AGENTS_POINTER);
      var r := End(d, MGIT);
      assert r != End(d, CLAUDE) ==> Same(doc, claude, r);
      assert r != End(d, AGENTS) ==> Same(claude, Entered(d, w, want).disk, r);
    }
  }

  lemma DocHasText(d: Disk, w: World, want: string)
    requires w.fault == NoFault && Doc(d, w, want).ok
    ensures var doc, r := Doc(d, w, want).disk, End(d, MGIT); r in doc && doc[r].Regular? && doc[r].data == want
  {
  }
}
