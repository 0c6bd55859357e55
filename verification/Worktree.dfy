/** The native worktree on disk and the projection of one commit's tree over
    another's: what may be written over, what a stop leaves, what a retry meets. */
module Worktree {
  import opened CommitGraph
  import Text

  /** The files and links of a worktree, and its directories. */
  datatype Disk = Disk(files: Tree, dirs: set<string>)

  /** The directories a path runs through. */
  function Parents(p: string): set<string> {
    set i | 0 <= i < |p| && p[i] == '/' :: p[..i]
  }

  ghost function DirsOf(tree: Tree): set<string> {
    set p, d | p in tree && d in Parents(p) :: d
  }

  /** `validateRelPath` for the clean paths a tree holds. */
  predicate ValidPath(p: string) {
    p != "" && p[0] != '/' && forall part | part in Text.Split(p, '/') :: part !in {"..", ".git", ".mgit"}
  }

  /** The directories of a path are what stands before one of its slashes. */
  lemma ParentsAre(d: string, p: string)
    ensures d in Parents(p) <==> exists rest :: p == d + "/" + rest
  {
    if d in Parents(p) {
      assert p == d + "/" + p[|d| + 1..];
    }
    if rest :| p == d + "/" + rest {
      assert p[|d|] == '/' && p[..|d|] == d;
    }
  }

  /** `c` is a component of the path `pre + c + post`. */
  ghost predicate HasComponent(pre: string, c: string, post: string) {
    '/' !in c && (pre == "" || pre[|pre| - 1] == '/') && (post == "" || post[0] == '/')
  }

  lemma ComponentIsSplitOff(pre: string, c: string, post: string)
    requires HasComponent(pre, c, post)
    ensures c in Text.Split(pre + c + post, '/')
  {
    hide Text.Split;
    var tail := c + post;
    Text.SplitOne(c, '/');
    if post != "" {
      assert tail == c + ['/'] + post[1..];
      Text.SplitJoins(c, post[1..], '/');
    } else {
      assert tail == c;
    }
    assert Text.Split(tail, '/')[0] == c;
    assert pre + c + post == pre + tail;
    if pre != "" {
      var front := pre[..|pre| - 1];
      assert pre + tail == front + ['/'] + tail;
      Text.SplitJoins(front, tail, '/');
    } else {
      assert pre + tail == tail;
    }
  }

  predicate Forbidden(c: string) {
    c == ".." || c == ".git" || c == ".mgit"
  }

  /** A path may be written if and only if it is not empty, does not begin with a slash,
      and has no component `..`, `.git` or `.mgit`. */
  lemma ValidPathIs(p: string)
    ensures ValidPath(p) <==>
            p != "" && !("/" <= p) &&
            forall pre, c, post | p == pre + c + post && HasComponent(pre, c, post) :: !Forbidden(c)
  {
    hide Text.Split;
    assert "/" <= p <==> p != "" && p[0] == '/';
    if ValidPath(p) {
      forall pre, c, post | p == pre + c + post && HasComponent(pre, c, post) ensures !Forbidden(c) {
        ComponentIsSplitOff(pre, c, post);
      }
    } else if p != "" && p[0] != '/' {
      var c :| c in Text.Split(p, '/') && c in {"..", ".git", ".mgit"};
      var pre, post := Text.SplitMember(p, '/', c);
      assert HasComponent(pre, c, post) && Forbidden(c);
    }
  }

  /** A file can be read, written or removed at `p`: no directory is in its place
      and no file or link is in the place of one of its directories. */
  predicate Accessible(work: Disk, p: string) {
    ValidPath(p) && p !in work.dirs && work.files.Keys !! Parents(p)
  }

  /** The file at `p` is as the old tip has it, as the target has it, or absent
      where one of them has nothing: no third version is at stake. */
  predicate Settled(work: Disk, old_: Tree, target: Tree, p: string) {
    if p !in work.files then !(p in old_ && p in target)
    else (p in old_ && work.files[p] == old_[p]) || (p in target && work.files[p] == target[p])
  }

  ghost predicate AllAccessible(work: Disk, old_: Tree, target: Tree) {
    forall p | p in old_ || p in target :: Accessible(work, p)
  }

  ghost predicate AllSettled(work: Disk, old_: Tree, target: Tree) {
    AllAccessible(work, old_, target) && forall p | p in old_ || p in target :: Settled(work, old_, target, p)
  }

  /** The worktree once `target` is written over a worktree at `old_`. */
  ghost function Projected(work: Disk, old_: Tree, target: Tree): Disk {
    Disk((work.files - (old_.Keys - target.Keys)) + target, work.dirs + DirsOf(target))
  }

  /** Every file of the tree is there and can be read. */
  ghost predicate Holds(work: Disk, tree: Tree) {
    forall p | p in tree :: Accessible(work, p) && p in work.files && work.files[p] == tree[p]
  }

  /** One of the trees has a file where the target needs a directory, or the
      target has a file where one of them has a directory. */
  ghost predicate Clash(old_: Tree, target: Tree) {
    exists p, q | q in Parents(p) :: (p in target && (q in old_ || q in target)) || (q in target && p in old_)
  }

  // ----- removing through a link -----

  /** The last component of a path. */
  function Base(p: string): string {
    if p == "" || p[|p| - 1] == '/' then "" else Base(p[..|p| - 1]) + [p[|p| - 1]]
  }

  lemma {:induction false} BaseIs(dir: string, name: string)
    requires '/' !in name
    ensures Base(name) == name && Base(dir + "/" + name) == name
  {
    var p := dir + "/" + name;
    if name == "" {
      assert p[|p| - 1] == '/';
    } else {
      var front := name[..|name| - 1];
      BaseIs(dir, front);
      assert p[..|p| - 1] == dir + "/" + front;
      assert name == front + [name[|name| - 1]] && name[|name| - 1] in name;
    }
  }

  /** A path that a removal meant for another can hit: the old tip has a file of
      that name which the target lacks, below a path where the target has a link.
      `os.Remove` follows the link, wherever it leads. */
  ghost predicate Slippery(old_: Tree, target: Tree, v: string) {
    exists p, q | q in Parents(p) ::
      p in old_ && p !in target && q in target && target[q].mode == Symlink && Base(p) == Base(v)
  }

  /** `work` is `whole`, except that removals through links may have hit it. */
  ghost predicate Spared(whole: Disk, work: Disk, old_: Tree, target: Tree) {
    && work.dirs <= whole.dirs
    && (forall p | p in work.files :: p in whole.files && work.files[p] == whole.files[p])
    && (forall p | (p in whole.files && p !in work.files) || (p in whole.dirs && p !in work.dirs) ::
         Slippery(old_, target, p))
  }

  /** Nothing is in the directory. */
  predicate Hollow(work: Disk, d: string) {
    forall p | p in work.files.Keys + work.dirs :: d !in Parents(p)
  }

  /** A file of the target that a path only the old tip has is in conflict with: it
      needs a directory there, or is itself, and is no link, where that one needs one. */
  ghost predicate Undercut(old_: Tree, target: Tree, q: string) {
    && q in target
    && exists p | p in old_ && p !in target ::
         p in Parents(q) || (q in Parents(p) && target[q].mode != Symlink)
  }

  ghost predicate Rooted(work: Disk, tree: Tree) {
    forall q | q in tree && q in work.files :: Parents(q) <= work.dirs
  }

  /** What a finished projection leaves. */
  ghost predicate Written(before: Disk, work: Disk, old_: Tree, target: Tree) {
    && Spared(Projected(before, old_, target), work, old_, target)
    && Rooted(work, target) && !Clash(target, target)
    && forall q | Undercut(old_, target, q) :: q !in work.files
  }

  lemma SparedItself(work: Disk, old_: Tree, target: Tree)
    ensures Spared(work, work, old_, target)
  {
  }

  lemma SparedTransitive(a: Disk, b: Disk, c: Disk, old_: Tree, target: Tree)
    requires Spared(a, b, old_, target) && Spared(b, c, old_, target)
    ensures Spared(a, c, old_, target)
  {
    hide Slippery;
  }

  lemma SparedWhereNothingSlips(whole: Disk, work: Disk, old_: Tree, target: Tree)
    requires Spared(whole, work, old_, target) && forall v :: !Slippery(old_, target, v)
    ensures work == whole
  {
    hide Slippery;
    assert work.files.Keys == whole.files.Keys;
    assert work.files == whole.files;
  }

  lemma NothingSlipsOverItself(tree: Tree)
    ensures forall v :: !Slippery(tree, tree, v)
  {
  }

  lemma SparedIsAccessible(whole: Disk, work: Disk, old_: Tree, target: Tree, p: string)
    requires Spared(whole, work, old_, target) && Accessible(whole, p)
    ensures Accessible(work, p)
  {
    hide Slippery, ValidPath, Parents;
    forall q | q in work.files.Keys ensures q !in Parents(p) {
      assert q in whole.files.Keys;
    }
  }

  /** What was lost before a projection is lost after it, unless it is written again. */
  lemma SparedProjects(whole: Disk, work: Disk, old_: Tree, target: Tree)
    requires Spared(whole, work, old_, target)
    ensures Spared(Projected(whole, old_, target), Projected(work, old_, target), old_, target)
  {
    hide Slippery, DirsOf;
  }

  // ----- a projection under way -----

  /** Where a stop fell: between two files, after the removal of a file that is
      to be rewritten, or inside the writing of a file. */
  datatype Halt = Between | Cleared(path: string) | Torn(path: string, left: Entry)

  /** What an unfinished write may leave: its own kind of file, with any content. */
  predicate Tearable(left: Entry, whole: Entry) {
    left.mode == whole.mode && (whole.mode == Regular || whole.mode == Executable)
  }

  /** A link is there or not; only files are torn, and keep their mode. */
  lemma LinksAreNotTorn(left: Entry, whole: Entry)
    ensures Tearable(left, whole) <==> left.mode == whole.mode && whole.mode != Symlink && whole.mode != Submodule
  {
  }

  predicate At(halt: Halt, p: string) {
    !halt.Between? && halt.path == p
  }

  ghost predicate Leaves(work: Disk, target: Tree, halt: Halt) {
    match halt
    case Between => true
    case Cleared(p) => p in target && p !in work.files
    case Torn(p, left) => p in target && Tearable(left, target[p]) && p in work.files && work.files[p] == left
  }

  ghost predicate Same(before: Disk, work: Disk, p: string) {
    (p in work.files <==> p in before.files) && (p in work.files ==> work.files[p] == before.files[p])
  }

  /** A worktree somewhere on the way: apart from the one file the stop fell into,
      a file is still as it was, or is already as in the target, or is one that
      only the old tip has and is gone; and some directories have been made. */
  ghost predicate Midway(before: Disk, work: Disk, old_: Tree, target: Tree, halt: Halt) {
    && Leaves(work, target, halt)
    && before.dirs <= work.dirs <= before.dirs + DirsOf(target)
    && forall p | !At(halt, p) ::
         || Same(before, work, p)
         || (p in target && p in work.files && work.files[p] == target[p])
         || (p in old_ && p !in target && p !in work.files)
  }

  /** What a stop leaves: a worktree on the way, which removals through links may
      have hit once every file is written. */
  ghost predicate Interrupted(before: Disk, work: Disk, old_: Tree, target: Tree, halt: Halt, way: Disk) {
    && Midway(before, way, old_, target, halt) && Spared(way, work, old_, target)
    && (work == way || (halt.Between? && forall q | q in target :: q in way.files && way.files[q] == target[q]))
  }

  /** The bookkeeping of a projection: the paths in `done` are written, those in
      `gone` are taken away, the rest is as it was before. */
  ghost predicate Partly(before: Disk, work: Disk, target: Tree, done: set<string>, gone: set<string>, halt: Halt) {
    && done <= target.Keys
    && before.dirs <= work.dirs <= before.dirs + DirsOf(target)
    && (forall p | p in done :: p in work.files && work.files[p] == target[p] && Parents(p) <= work.dirs)
    && (forall p | p in gone :: p !in work.files)
    && (forall p | p !in done && p !in gone && !At(halt, p) :: Same(before, work, p))
    && Leaves(work, target, halt)
  }

  lemma NothingDoneYet(work: Disk, target: Tree)
    ensures Partly(work, work, target, target.Keys - target.Keys, {}, Between)
  {
    hide DirsOf;
    assert target.Keys - target.Keys == {};
  }

  lemma PartlyMakes(before: Disk, work: Disk, target: Tree, done: set<string>, d: string)
    requires Partly(before, work, target, done, {}, Between) && d in DirsOf(target)
    ensures Partly(before, work.(dirs := work.dirs + {d}), target, done, {}, Between)
  {
    hide DirsOf, Parents;
  }

  /** Replacing one more file: it is still as it was, then it is gone, then it is
      as in the target or as a broken-off write left it. */
  lemma PartlyRemoves(before: Disk, work: Disk, target: Tree, done: set<string>, p: string)
    requires Partly(before, work, target, done, {}, Between) && p in target && p !in done
    ensures Same(before, work, p)
    ensures Partly(before, work.(files := work.files - {p}), target, done, {}, Cleared(p))
  {
    hide DirsOf, Parents;
  }

  lemma PartlyWrites(before: Disk, work: Disk, target: Tree, done: set<string>, p: string, halt: Halt)
    requires Partly(before, work, target, done, {}, halt) && p in target && p !in done
             && (halt == Between || halt == Cleared(p))
    requires Parents(p) <= work.dirs
    ensures Partly(before, work.(files := work.files[p := target[p]]), target, done + {p}, {}, Between)
  {
    hide DirsOf, Parents;
  }

  lemma PartlyTears(before: Disk, work: Disk, target: Tree, done: set<string>, p: string, halt: Halt, left: Entry)
    requires Partly(before, work, target, done, {}, halt) && p in target && p !in done
             && (halt == Between || halt == Cleared(p))
    requires Tearable(left, target[p])
    ensures Partly(before, work.(files := work.files[p := left]), target, done, {}, Torn(p, left))
  {
    hide DirsOf, Parents;
  }

  lemma PartlyDrops(before: Disk, work: Disk, target: Tree, gone: set<string>, p: string)
    requires Partly(before, work, target, target.Keys, gone, Between) && p !in target && p !in gone
    ensures Same(before, work, p)
    ensures Partly(before, work.(files := work.files - {p}), target, target.Keys, gone + {p}, Between)
    ensures p !in work.files ==> Partly(before, work, target, target.Keys, gone + {p}, Between)
  {
    hide DirsOf, Parents;
    if p !in work.files {
      assert work.files - {p} == work.files;
    }
  }

  lemma PartlyIsMidway(before: Disk, work: Disk, old_: Tree, target: Tree, done: set<string>, gone: set<string>,
                       halt: Halt)
    requires Partly(before, work, target, done, gone, halt) && gone <= old_.Keys - target.Keys
    ensures Midway(before, work, old_, target, halt)
    ensures forall q | q in done :: q in target && q in work.files && work.files[q] == target[q]
  {
    hide Parents, Leaves;
  }

  lemma PartlyIsProjected(before: Disk, work: Disk, old_: Tree, target: Tree)
    requires Partly(before, work, target, target.Keys, old_.Keys - target.Keys, Between)
    ensures work == Projected(before, old_, target)
  {
    hide Parents;
    assert DirsOf(target) <= work.dirs;
    assert work.files == Projected(before, old_, target).files;
  }

  /** No path of one set is a directory of a path of the other. */
  ghost predicate Apart(ps: set<string>, qs: set<string>) {
    forall p, q | p in ps && q in qs :: p !in Parents(q) && q !in Parents(p)
  }

  /** A path that is still accessible when others have been written is apart from them. */
  lemma AccessibleIsApart(work: Disk, done: set<string>, p: string)
    requires Accessible(work, p)
    requires forall q | q in done :: q in work.files && Parents(q) <= work.dirs
    ensures Apart(done, {p}) && Apart({p}, {p})
  {
    forall q | q in done ensures q !in Parents(p) && p !in Parents(q) {
      assert q in work.files.Keys;
    }
  }

  lemma ApartFromWritten(before: Disk, work: Disk, target: Tree, done: set<string>, gone: set<string>, p: string)
    requires Partly(before, work, target, done, gone, Between) && Accessible(work, p)
    ensures Apart(done, {p}) && Apart({p}, {p})
  {
    AccessibleIsApart(work, done, p);
  }

  lemma StillAccessible(work: Disk, p: string)
    requires Accessible(work, p)
    ensures Accessible(work.(files := work.files - {p}), p)
  {
  }

  lemma ApartIsNoClash(tree: Tree)
    requires Apart(tree.Keys, tree.Keys)
    ensures !Clash(tree, tree)
  {
    hide Parents;
  }

  // ----- the deletion pass -----

  /** `os.Remove` does not fail: no directory is in the place of the path, and what is
      in the place of one of its directories is a link. */
  predicate Removable(work: Disk, p: string) {
    p !in work.dirs && forall q | q in work.files.Keys * Parents(p) :: work.files[q].mode == Symlink
  }

  /** No file of the target that is there is in conflict with a removed path. */
  ghost predicate Unopposed(work: Disk, target: Tree, gone: set<string>) {
    forall p, q | p in gone && q in target && q in work.files ::
      p !in Parents(q) && (q in Parents(p) ==> work.files[q].mode == Symlink)
  }

  lemma NothingOpposedYet(before: Disk, work: Disk, target: Tree)
    requires Partly(before, work, target, target.Keys, {}, Between)
    ensures Rooted(work, target) && Unopposed(work, target, {})
  {
    hide Parents, DirsOf;
  }

  lemma OneMoreUnopposed(work: Disk, target: Tree, gone: set<string>, p: string)
    requires Rooted(work, target) && Unopposed(work, target, gone) && Removable(work, p)
    ensures Unopposed(work, target, gone + {p})
  {
    hide Parents;
    forall q | q in target && q in work.files
      ensures p !in Parents(q) && (q in Parents(p) ==> work.files[q].mode == Symlink)
    {
      assert q in Parents(p) ==> q in work.files.Keys * Parents(p);
    }
  }

  lemma LessIsUnopposed(whole: Disk, work: Disk, target: Tree, gone: set<string>)
    requires Rooted(whole, target) && Unopposed(whole, target, gone) && work.dirs == whole.dirs
    requires forall p | p in work.files :: p in whole.files && work.files[p] == whole.files[p]
    ensures Rooted(work, target) && Unopposed(work, target, gone)
  {
    hide Parents;
  }

  lemma SlippedIsUnopposed(whole: Disk, target: Tree, gone: set<string>, v: string)
    requires Rooted(whole, target) && Unopposed(whole, target, gone) && (v in whole.dirs ==> Hollow(whole, v))
    ensures var work := Disk(whole.files - {v}, whole.dirs - {v}); Rooted(work, target) && Unopposed(work, target, gone)
  {
    hide Parents;
    forall q | q in target && q in whole.files && q != v ensures Parents(q) <= whole.dirs - {v} {
      assert q in whole.files.Keys + whole.dirs;
    }
  }

  lemma SparedDrops(whole: Disk, work: Disk, old_: Tree, target: Tree, p: string)
    requires Spared(whole, work, old_, target)
    ensures p in work.files ==> p in whole.files && whole.files[p] == work.files[p]
    ensures Spared(whole.(files := whole.files - {p}), work.(files := work.files - {p}), old_, target)
  {
    hide Slippery;
  }

  lemma SparedSlips(whole: Disk, work: Disk, old_: Tree, target: Tree, p: string, q: string, v: string)
    requires Spared(whole, work, old_, target) && q in Parents(p) && Base(v) == Base(p)
    requires p in old_ && p !in target && q in target && target[q].mode == Symlink
    ensures Spared(whole, Disk(work.files - {v}, work.dirs - {v}), old_, target)
  {
    hide Parents, Base;
    assert Slippery(old_, target, v);
    hide Slippery;
  }

  /** What is in the place of a removed path's directory is a link of the target. */
  lemma LinkIsTheTargets(start: Disk, way: Disk, work: Disk, old_: Tree, target: Tree, gone: set<string>, p: string,
                         q: string)
    requires AllAccessible(start, old_, target) && Partly(start, way, target, target.Keys, gone, Between)
    requires Spared(way, work, old_, target) && Unopposed(work, target, gone)
    requires p in old_ && p in gone && q in work.files && q in Parents(p)
    ensures q in target && work.files[q] == target[q] && target[q].mode == Symlink
  {
    hide Parents, Slippery, DirsOf, ValidPath;
    assert Accessible(start, p);
    assert q !in start.files.Keys;
    assert q in way.files && (q !in target.Keys ==> Same(start, way, q));
  }

  lemma UnopposedIsWritten(before: Disk, work: Disk, old_: Tree, target: Tree)
    requires Spared(Projected(before, old_, target), work, old_, target) && !Clash(target, target)
    requires Rooted(work, target) && Unopposed(work, target, old_.Keys - target.Keys)
    ensures Written(before, work, old_, target)
  {
    hide Parents, Slippery, Clash, DirsOf;
    forall q | Undercut(old_, target, q) ensures q !in work.files {
      var p :| p in old_ && p !in target && (p in Parents(q) || (q in Parents(p) && target[q].mode != Symlink));
      assert p in old_.Keys - target.Keys;
    }
  }

  // ----- when nothing needs to fail -----

  /** Every entry can be written and removed: no path of the trees is a directory of
      one of the target, or the other way round, and every entry is a blob. */
  ghost predicate Writable(old_: Tree, target: Tree) {
    !Clash(old_, target) && forall p | p in target :: target[p].mode != Submodule
  }

  lemma WritableIsAccessible(before: Disk, way: Disk, work: Disk, old_: Tree, target: Tree, p: string)
    requires AllSettled(before, old_, target) && Midway(before, way, old_, target, Between)
    requires Spared(way, work, old_, target) || work == way
    requires p in old_ || p in target
    ensures Accessible(work, p) || !Writable(old_, target)
  {
    hide Midway, Spared, Accessible, Clash, Settled;
    MidwayIsAccessible(before, way, old_, target, Between);
    if AllAccessible(way, old_, target) && work != way {
      SparedIsAccessible(way, work, old_, target, p);
    }
  }

  lemma AccessibleIsRemovable(work: Disk, p: string)
    ensures Accessible(work, p) ==> Removable(work, p)
  {
    hide Parents, ValidPath;
  }

  lemma NothingSlipsWhereWritable(old_: Tree, target: Tree)
    requires Writable(old_, target)
    ensures forall v :: !Slippery(old_, target, v)
  {
    hide Parents, Base;
  }

  lemma WritableIsWritten(before: Disk, old_: Tree, target: Tree)
    requires Writable(old_, target)
    ensures Written(before, Projected(before, old_, target), old_, target)
  {
    hide Parents, Slippery;
    var work := Projected(before, old_, target);
    SparedItself(work, old_, target);
    assert Rooted(work, target) by {
      forall q | q in target ensures Parents(q) <= work.dirs {
        assert forall d | d in Parents(q) :: d in DirsOf(target);
      }
    }
  }

  // ----- taking up an interrupted projection again -----

  /** The stop fell into the replacement of a file and left neither version of it:
      a file both trees have is gone, or its writing broke off. */
  ghost predicate Inside(halt: Halt, old_: Tree, target: Tree) {
    match halt
    case Between => false
    case Cleared(p) => p in old_
    case Torn(p, left) => !(p in target && left == target[p]) && !(p in old_ && left == old_[p])
  }

  /** Where trees do not clash, what has been written is in nobody's way. */
  lemma MidwayIsAccessible(before: Disk, work: Disk, old_: Tree, target: Tree, halt: Halt)
    requires AllAccessible(before, old_, target) && Midway(before, work, old_, target, halt)
    ensures AllAccessible(work, old_, target) || Clash(old_, target)
  {
    hide Parents, ValidPath;
    if !Clash(old_, target) {
      forall p | p in old_ || p in target ensures Accessible(work, p) {
        assert Accessible(before, p);
        forall q | q in work.files.Keys ensures q !in Parents(p) {
          assert q in target || q in before.files.Keys;
        }
        assert p !in DirsOf(target);
      }
    }
  }

  /** The conflict scan of a retry passes exactly when the stop did not fall inside
      the replacement of a file and nothing written stands in the way. */
  lemma ResumesUnlessInside(before: Disk, work: Disk, old_: Tree, target: Tree, halt: Halt)
    requires AllSettled(before, old_, target) && Midway(before, work, old_, target, halt)
    ensures AllSettled(work, old_, target) <==> !Inside(halt, old_, target) && AllAccessible(work, old_, target)
    ensures AllAccessible(work, old_, target) || Clash(old_, target)
  {
    hide Clash, DirsOf, Accessible;
    MidwayIsAccessible(before, work, old_, target, halt);
    hide AllAccessible;
    if !Inside(halt, old_, target) {
      forall p | p in old_ || p in target
        ensures Settled(work, old_, target, p)
      {
        assert Settled(before, old_, target, p);
      }
    } else {
      assert !Settled(work, old_, target, halt.path);
    }
  }

  /** A removal through a link has taken a file that both trees have. */
  ghost predicate Hit(work: Disk, old_: Tree, target: Tree) {
    exists p | p in old_ && p in target :: p !in work.files && Slippery(old_, target, p)
  }

  /** The same for everything a stop can leave: a file that was hit is in the way too. */
  lemma ResumesUnlessHit(before: Disk, work: Disk, old_: Tree, target: Tree, halt: Halt, way: Disk)
    requires AllSettled(before, old_, target) && Interrupted(before, work, old_, target, halt, way)
    ensures AllSettled(work, old_, target) <==>
            !Inside(halt, old_, target) && AllAccessible(work, old_, target) && !Hit(work, old_, target)
    ensures AllAccessible(work, old_, target) || Clash(old_, target)
  {
    hide Clash, DirsOf, Accessible, Midway, Slippery, Inside;
    ResumesUnlessInside(before, way, old_, target, halt);
    if AllAccessible(way, old_, target) {
      forall p | p in old_ || p in target { SparedIsAccessible(way, work, old_, target, p); }
    }
    if p :| p in old_ && p in target && p !in work.files && Slippery(old_, target, p) {
      assert !Settled(work, old_, target, p);
    }
    if halt.Between? {
      NotInside(old_, target);
      MidwayIsSettled(before, way, old_, target);
      forall p | (p in old_ || p in target) && !Hit(work, old_, target)
        ensures Settled(work, old_, target, p)
      {
        assert Settled(way, old_, target, p);
      }
    }
  }

  lemma NotInside(old_: Tree, target: Tree)
    ensures !Inside(Between, old_, target)
  {
  }

  lemma MidwayIsSettled(before: Disk, work: Disk, old_: Tree, target: Tree)
    requires AllSettled(before, old_, target) && Midway(before, work, old_, target, Between)
    ensures forall p | p in old_ || p in target :: Settled(work, old_, target, p)
  {
    hide DirsOf, Accessible;
    forall p | p in old_ || p in target ensures Settled(work, old_, target, p) {
      assert Settled(before, old_, target, p);
    }
  }

  /** The remedy for the file a stop fell into: it is put back as the old tip has
      it, or moved away when the old tip does not have it. */
  ghost function Remedied(work: Disk, old_: Tree, p: string): Disk {
    work.(files := if p in old_ then work.files[p := old_[p]] else work.files - {p})
  }

  /** One file at most is in the way, and the remedy for it is enough. */
  lemma RemedyResumes(before: Disk, work: Disk, old_: Tree, target: Tree, halt: Halt)
    requires AllSettled(before, old_, target) && Midway(before, work, old_, target, halt)
    requires Inside(halt, old_, target) && AllAccessible(work, old_, target)
    ensures AllSettled(Remedied(work, old_, halt.path), old_, target)
  {
    hide DirsOf, ValidPath;
    var again := Remedied(work, old_, halt.path);
    forall p | p in old_ || p in target
      ensures Accessible(again, p) && Settled(again, old_, target, p)
    {
      assert Accessible(before, p) && Accessible(work, p) && Settled(before, old_, target, p);
      assert Settled(before, old_, target, halt.path);
      assert again.files.Keys <= work.files.Keys + before.files.Keys;
    }
  }

  /** A retry ends where the interrupted projection would have ended. */
  lemma ProjectedAgain(before: Disk, work: Disk, old_: Tree, target: Tree, halt: Halt)
    requires Midway(before, work, old_, target, halt)
    ensures Projected(work, old_, target) == Projected(before, old_, target)
  {
    hide DirsOf;
    assert Projected(work, old_, target).files == Projected(before, old_, target).files;
  }

  lemma ProjectedOverItself(work: Disk, tree: Tree)
    requires (forall p | p in tree :: p in work.files && work.files[p] == tree[p]) && DirsOf(tree) <= work.dirs
    ensures Projected(work, tree, tree) == work
  {
    hide DirsOf;
    assert Projected(work, tree, tree).files == work.files;
  }

  lemma ProjectedIsMidway(before: Disk, old_: Tree, target: Tree)
    ensures Midway(before, Projected(before, old_, target), old_, target, Between)
  {
    hide DirsOf;
  }

  lemma SameIsMidway(work: Disk, old_: Tree, target: Tree)
    ensures Midway(work, work, old_, target, Between)
  {
    hide DirsOf;
  }

  /** A finished projection that nothing has hit can be read back. */
  lemma ProjectedHolds(before: Disk, old_: Tree, target: Tree)
    requires AllAccessible(before, old_, target) && !Clash(target, target)
    ensures Holds(Projected(before, old_, target), target)
  {
    hide Parents, ValidPath;
    var work := Projected(before, old_, target);
    forall p | p in target ensures Accessible(work, p) {
      assert Accessible(before, p);
      forall q | q in work.files.Keys ensures q !in Parents(p) {
        assert q in target || q in before.files.Keys;
      }
      assert p !in DirsOf(target);
    }
  }

  /** The read-back fails exactly when a file of the target was hit, and then the
      next scan refuses it. */
  lemma WrittenHoldsUnlessHit(before: Disk, work: Disk, old_: Tree, target: Tree)
    requires AllSettled(before, old_, target) && Written(before, work, old_, target)
    ensures Holds(work, target) <==> forall q | q in target :: q in work.files
    ensures Holds(work, target) <==> AllSettled(work, target, target)
    ensures Holds(work, target) ==> DirsOf(target) <= work.dirs
    ensures forall q | q in target && q !in work.files :: Slippery(old_, target, q)
    ensures Holds(work, target) ==> forall q :: !Undercut(old_, target, q)
  {
    hide Slippery, Parents, Accessible, Settled, Clash;
    ProjectedHolds(before, old_, target);
    var whole := Projected(before, old_, target);
    forall q | q in target ensures Accessible(work, q) {
      SparedIsAccessible(whole, work, old_, target, q);
    }
    assert forall q | q in target && q in work.files :: work.files[q] == target[q];
    if Holds(work, target) { HoldsIsSettled(work, target); }
    if q :| q in target && q !in work.files { MissingIsUnsettled(work, target, q); }
  }

  lemma WrittenMayAdvance(before: Disk, work: Disk, old_: Tree, target: Tree)
    requires AllSettled(before, old_, target) && Written(before, work, old_, target)
    ensures Holds(work, target) || exists v :: Slippery(old_, target, v)
  {
    hide Slippery, AllSettled, Written, Parents, Accessible, Undercut;
    WrittenHoldsUnlessHit(before, work, old_, target);
  }

  lemma ProjectedHasTarget(work: Disk, old_: Tree, target: Tree)
    ensures forall q | q in target ::
              q in Projected(work, old_, target).files && Projected(work, old_, target).files[q] == target[q]
  {
    hide DirsOf;
  }

  lemma WrittenIsInterrupted(before: Disk, work: Disk, old_: Tree, target: Tree)
    requires Written(before, work, old_, target)
    ensures Interrupted(before, work, old_, target, Between, Projected(before, old_, target))
  {
    hide Slippery, Midway, Projected, Clash, Undercut, Rooted;
    ProjectedIsMidway(before, old_, target);
    ProjectedHasTarget(before, old_, target);
  }

  lemma MissingIsUnsettled(work: Disk, tree: Tree, q: string)
    requires q in tree && q !in work.files
    ensures !AllSettled(work, tree, tree)
  {
    assert !Settled(work, tree, tree, q);
  }

  lemma HoldsIsSettled(work: Disk, tree: Tree)
    requires Holds(work, tree)
    ensures AllSettled(work, tree, tree)
  {
    hide Accessible;
  }

  /** Where the whole old tree is in place, a target that turns a file into a
      directory or a directory into a file is refused before anything is written. */
  lemma ClashIsRefused(work: Disk, old_: Tree, target: Tree)
    requires Clash(old_, target) && !Clash(target, target)
    requires forall p | p in old_ :: p in work.files && Parents(p) <= work.dirs
    ensures !AllSettled(work, old_, target)
  {
    var p, q :| q in Parents(p) && ((p in target && (q in old_ || q in target)) || (q in target && p in old_));
    if p in target {
      assert q in work.files.Keys;
      assert !Accessible(work, p);
    } else {
      assert !Accessible(work, q);
    }
  }
}
