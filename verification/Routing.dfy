/** Which sandbox a command run in a directory goes to. */
module Routing {

  datatype SandboxState = Created | Running | Suspended | Landed | Destroyed | Dead
  datatype Sandbox = Sandbox(task: string, state: SandboxState, worktree: string)

  predicate Routable(s: SandboxState) {
    s in {Created, Running, Suspended, Dead}
  }

  /** A command can go to every sandbox that is neither landed nor destroyed. */
  lemma RoutableIs(s: SandboxState)
    ensures Routable(s) <==> s != Landed && s != Destroyed
  {
  }

  predicate DirWithin(dir: string, base: string) {
    dir == base || base + "/" <= dir
  }

  /** A sandbox that can take the command; `clean` is `filepath.Clean`. */
  predicate Serves(clean: string -> string, sb: Sandbox, dir: string) {
    Routable(sb.state) && DirWithin(dir, clean(sb.worktree))
  }

  /** `sb` serves the directory from inside every other worktree that does. */
  ghost predicate IsDeepest(clean: string -> string, list: seq<Sandbox>, dir: string, sb: Sandbox) {
    && sb in list && Serves(clean, sb, dir)
    && forall s | s in list && Serves(clean, s, dir) :: DirWithin(clean(sb.worktree), clean(s.worktree))
  }

  /** `sandboxForDir`: -1, or the first sandbox among those with the longest
      covering worktree. */
  method SandboxForDir(clean: string -> string, list: seq<Sandbox>, dir: string) returns (best: int)
    ensures best == -1 <==> forall i | 0 <= i < |list| :: !Serves(clean, list[i], dir)
    ensures -1 <= best < |list|
    ensures best >= 0 ==> IsDeepest(clean, list, dir, list[best])
    ensures best >= 0 ==> forall i | 0 <= i < best && Serves(clean, list[i], dir) ::
              clean(list[i].worktree) != clean(list[best].worktree)
  {
    best := -1;
    var bestLen := -1;
    for n := 0 to |list|
      invariant -1 <= best < n && bestLen == (if best == -1 then -1 else |clean(list[best].worktree)|)
      invariant best >= 0 ==> Serves(clean, list[best], dir)
      invariant forall i | 0 <= i < n && Serves(clean, list[i], dir) ::
                  best >= 0 && |clean(list[i].worktree)| <= bestLen
      invariant forall i | 0 <= i < best && Serves(clean, list[i], dir) :: |clean(list[i].worktree)| < bestLen
    {
      var worktree := clean(list[n].worktree);
      if Routable(list[n].state) && DirWithin(dir, worktree) && |worktree| > bestLen {
        best, bestLen := n, |worktree|;
      }
    }
    forall s | best >= 0 && s in list && Serves(clean, s, dir)
      ensures DirWithin(clean(list[best].worktree), clean(s.worktree))
    {
      CoversAreNested(dir, clean(s.worktree), clean(list[best].worktree));
    }
  }

  /** Of two worktrees that cover a directory, the longer one is inside the other. */
  lemma CoversAreNested(dir: string, a: string, b: string)
    requires DirWithin(dir, a) && DirWithin(dir, b) && |a| <= |b|
    ensures DirWithin(b, a)
  {
    if |a| == |b| {
      assert a == dir[..|a|] == b;
    } else {
      assert dir[..|b|] == b;
      assert a + "/" == dir[..|a| + 1] == b[..|a| + 1];
    }
  }

  ghost predicate SameMembers(xs: seq<Sandbox>, ys: seq<Sandbox>) {
    forall s :: s in xs <==> s in ys
  }

  /** The chosen worktree does not depend on the order of the list. */
  lemma ChoiceIgnoresOrder(clean: string -> string, xs: seq<Sandbox>, ys: seq<Sandbox>, dir: string, a: Sandbox,
                           b: Sandbox)
    requires SameMembers(xs, ys) && IsDeepest(clean, xs, dir, a) && IsDeepest(clean, ys, dir, b)
    ensures clean(a.worktree) == clean(b.worktree)
  {
    assert DirWithin(clean(a.worktree), clean(b.worktree)) && DirWithin(clean(b.worktree), clean(a.worktree));
  }

  // ----- paths as components -----

  predicate Component(c: string) {
    c != "" && '/' !in c
  }

  predicate Components(cs: seq<string>) {
    forall i | 0 <= i < |cs| :: Component(cs[i])
  }

  function Slashed(cs: seq<string>): string {
    if cs == [] then "" else "/" + cs[0] + Slashed(cs[1..])
  }

  /** A cleaned absolute path. */
  function Path(cs: seq<string>): string {
    if cs == [] then "/" else Slashed(cs)
  }

  lemma SplitsAtSlash(a: string, x: string, b: string, y: string)
    requires '/' !in a && '/' !in b
    requires x == "" || x[0] == '/'
    requires y != "" && y[0] == '/' && a + y <= b + x
    ensures a == b && y <= x
  {
    var s := b + x;
    assert (a + y)[|a|] == '/' && s[|a|] == '/';
    assert forall i | 0 <= i < |a| :: s[i] == a[i] by {
      assert forall i | 0 <= i < |a| :: s[i] == (a + y)[i];
    }
    assert forall i | 0 <= i < |b| :: s[i] == b[i];
    assert |x| > 0 ==> s[|b|] == '/';
    assert |a| >= |b|;
    assert |a| <= |b|;
    assert a == s[..|a|] == b;
    assert y == (a + y)[|a|..] && x == s[|b|..];
  }

  lemma {:induction false} SlashedNesting(d: seq<string>, b: seq<string>)
    requires Components(d) && Components(b)
    ensures Slashed(b) + "/" <= Slashed(d) <==> b < d
    decreases |b|
  {
    if b == [] {
      assert Slashed(b) + "/" == "/";
      if d != [] { assert Slashed(d)[0] == '/'; }
    } else if d != [] {
      var c, e := b[1..], d[1..];
      assert Component(b[0]) && Component(d[0]);
      SlashedNesting(e, c);
      assert b == [b[0]] + c && d == [d[0]] + e;
      assert (Slashed(b) + "/")[1..] == b[0] + (Slashed(c) + "/") && Slashed(d)[1..] == d[0] + Slashed(e);
      if Slashed(b) + "/" <= Slashed(d) {
        assert b[0] + (Slashed(c) + "/") <= d[0] + Slashed(e);
        SplitsAtSlash(b[0], Slashed(e), d[0], Slashed(c) + "/");
      }
      if b < d {
        assert c < e && b[0] == d[0];
        assert Slashed(b) + "/" == "/" + b[0] + (Slashed(c) + "/");
      }
    }
  }

  lemma {:induction false} SlashedInjective(d: seq<string>, b: seq<string>)
    requires Components(d) && Components(b) && Slashed(b) == Slashed(d)
    ensures b == d
    decreases |b|
  {
    if b != [] && d != [] {
      var c, e := b[1..], d[1..];
      assert Component(b[0]) && Component(d[0]);
      assert Slashed(b)[1..] == b[0] + Slashed(c) && Slashed(d)[1..] == d[0] + Slashed(e);
      var x, y := Slashed(e) + "/", Slashed(c) + "/";
      assert b[0] + y == d[0] + x by {
        assert b[0] + y == b[0] + Slashed(c) + "/" && d[0] + x == d[0] + Slashed(e) + "/";
      }
      SplitsAtSlash(b[0], x, d[0], y);
      assert y == x && Slashed(c) == y[..|y| - 1] && Slashed(e) == x[..|x| - 1];
      SlashedInjective(e, c);
      assert b == [b[0]] + c && d == [d[0]] + e;
    }
  }

  /** On cleaned absolute paths the string test is ancestry of directories, with
      one exception: the root worktree covers nothing but the root itself. */
  lemma DirWithinIsAncestry(d: seq<string>, b: seq<string>)
    requires Components(d) && Components(b)
    ensures DirWithin(Path(d), Path(b)) <==> if b == [] then d == [] else b <= d
  {
    SlashedNesting(d, b);
    if Slashed(b) == Slashed(d) { SlashedInjective(d, b); }
    if b == [] {
      assert Path(b) + "/" == "//";
      if d != [] {
        assert Component(d[0]);
        assert Slashed(d)[1] == d[0][0];
      }
    } else if d == [] {
      assert |Slashed(b)| > 1 by { assert Component(b[0]); }
    } else {
      assert b <= d <==> b < d || b == d by { if b <= d && |b| == |d| { assert b == d; } }
    }
  }
}
