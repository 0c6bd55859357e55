/** The string operations of the Go standard library that the modelled code uses. */
module Text {

  /** Unicode White_Space, as `unicode.IsSpace` has it. */
  predicate IsSpace(c: char) {
    || c == ' ' || '\t' <= c <= '\r' || c == '\U{85}' || c == '\U{A0}' || c == '\U{1680}'
    || '\U{2000}' <= c <= '\U{200A}' || c == '\U{2028}' || c == '\U{2029}'
    || c == '\U{202F}' || c == '\U{205F}' || c == '\U{3000}'
  }

  function TrimLeftSpace(s: string): string {
    if s != [] && IsSpace(s[0]) then TrimLeftSpace(s[1..]) else s
  }

  function TrimRightSpace(s: string): string {
    if s != [] && IsSpace(s[|s| - 1]) then TrimRightSpace(s[..|s| - 1]) else s
  }

  function TrimSpace(s: string): string {
    TrimRightSpace(TrimLeftSpace(s))
  }

  /** `strings.TrimRight(s, "\n")`. */
  function TrimNewlines(s: string): (r: string)
    ensures r <= s && (r == [] || r[|r| - 1] != '\n')
    ensures forall i | |r| <= i < |s| :: s[i] == '\n'
  {
    if s != [] && s[|s| - 1] == '\n' then TrimNewlines(s[..|s| - 1]) else s
  }

  ghost predicate OccursAt(s: string, sub: string, i: int) {
    0 <= i && i + |sub| <= |s| && s[i..i + |sub|] == sub
  }

  function IndexFrom(s: string, sub: string, from: nat): (r: int)
    requires from <= |s|
    ensures r == -1 || (from <= r && OccursAt(s, sub, r))
    ensures forall i | from <= i && (r == -1 || i < r) :: !OccursAt(s, sub, i)
    decreases |s| - from
  {
    if from + |sub| > |s| then -1
    else if s[from..from + |sub|] == sub then from
    else if from == |s| then -1
    else IndexFrom(s, sub, from + 1)
  }

  /** The first occurrence of `sub`, or -1. */
  function Index(s: string, sub: string): (r: int)
    ensures r == -1 || OccursAt(s, sub, r)
    ensures forall i :: OccursAt(s, sub, i) ==> 0 <= r <= i
  {
    IndexFrom(s, sub, 0)
  }

  lemma IndexIsFirst(s: string, sub: string, i: int)
    requires OccursAt(s, sub, i) && forall j | 0 <= j < i :: !OccursAt(s, sub, j)
    ensures Index(s, sub) == i
  {
  }

  /** `strings.Split(s, sep)` for a one-character separator. */
  function Split(s: string, sep: char): (r: seq<string>)
    ensures r != []
  {
    if s == [] then [""]
    else
      var rest := Split(s[1..], sep);
      if s[0] == sep then [""] + rest else [[s[0]] + rest[0]] + rest[1..]
  }

  function Join(words: seq<string>, sep: string): string {
    if words == [] then ""
    else if |words| == 1 then words[0]
    else words[0] + sep + Join(words[1..], sep)
  }

  // ----- what they mean -----

  lemma {:induction false} SplitJoins(a: string, b: string, sep: char)
    ensures Split(a + [sep] + b, sep) == Split(a, sep) + Split(b, sep)
  {
    var s := a + [sep] + b;
    if a == [] {
      assert s == [sep] + b && s[1..] == b;
    } else {
      assert s[1..] == a[1..] + [sep] + b;
      SplitJoins(a[1..], b, sep);
    }
  }

  lemma {:induction false} SplitOne(a: string, sep: char)
    requires sep !in a
    ensures Split(a, sep) == [a]
  {
    if a != [] {
      SplitOne(a[1..], sep);
      assert [a[0]] + a[1..] == a;
    }
  }

  /** Splitting undoes joining: pieces without the separator come back. */
  lemma {:induction false} SplitUndoesJoin(pieces: seq<string>, sep: char)
    requires pieces != [] && forall p | p in pieces :: sep !in p
    ensures Split(Join(pieces, [sep]), sep) == pieces
  {
    assert pieces[0] in pieces;
    SplitOne(pieces[0], sep);
    if |pieces| > 1 {
      SplitUndoesJoin(pieces[1..], sep);
      SplitJoins(pieces[0], Join(pieces[1..], [sep]), sep);
      assert pieces == [pieces[0]] + pieces[1..];
    }
  }

  /** And joining undoes splitting, into pieces without the separator. */
  lemma {:induction false} JoinUndoesSplit(s: string, sep: char)
    ensures Join(Split(s, sep), [sep]) == s && forall p | p in Split(s, sep) :: sep !in p
  {
    if s != [] {
      JoinUndoesSplit(s[1..], sep);
      var rest := Split(s[1..], sep);
      assert rest[0] in rest;
      if s[0] != sep {
        var all := [[s[0]] + rest[0]] + rest[1..];
        assert all[1..] == rest[1..];
        assert Join(all, [sep]) == [s[0]] + Join(rest, [sep]);
      }
    }
  }

  /** A piece of a split text stands between separators, or at an end. */
  lemma SplitMember(s: string, sep: char, c: string) returns (pre: string, post: string)
    requires c in Split(s, sep)
    ensures s == pre + c + post && sep !in c
    ensures (pre == "" || pre[|pre| - 1] == sep) && (post == "" || post[0] == sep)
  {
    hide Split, Join;
    JoinUndoesSplit(s, sep);
    var k :| 0 <= k < |Split(s, sep)| && Split(s, sep)[k] == c;
    if k == 0 {
      FirstPiece(s, sep);
      pre, post := "", s[|c|..];
    } else {
      pre, post := LaterPiece(s, sep, k);
    }
  }

  lemma {:induction false} FirstPiece(s: string, sep: char)
    ensures var c := Split(s, sep)[0]; c <= s && (|c| == |s| || s[|c|] == sep)
  {
    if s != [] && s[0] != sep {
      FirstPiece(s[1..], sep);
    }
  }

  lemma {:induction false} LaterPiece(s: string, sep: char, k: nat) returns (pre: string, post: string)
    requires 1 <= k < |Split(s, sep)|
    ensures s == pre + Split(s, sep)[k] + post
    ensures pre != "" && pre[|pre| - 1] == sep && (post == "" || post[0] == sep)
  {
    var rest := Split(s[1..], sep);
    if s[0] == sep && k == 1 {
      FirstPiece(s[1..], sep);
      return [sep], s[1 + |rest[0]|..];
    }
    if s[0] == sep {
      pre, post := LaterPiece(s[1..], sep, k - 1);
      pre := [sep] + pre;
    } else {
      pre, post := LaterPiece(s[1..], sep, k);
      pre := [s[0]] + pre;
    }
  }

  ghost predicate Blank(s: string) {
    forall i | 0 <= i < |s| :: IsSpace(s[i])
  }

  /** `t` is `s` without the blanks around it. */
  ghost predicate Trims(s: string, t: string) {
    && (exists pre, post :: Blank(pre) && Blank(post) && s == pre + t + post)
    && (t != "" ==> !IsSpace(t[0]) && !IsSpace(t[|t| - 1]))
  }

  lemma {:induction false} LeftTrimmed(s: string) returns (pre: string)
    ensures Blank(pre) && s == pre + TrimLeftSpace(s)
    ensures TrimLeftSpace(s) != "" ==> !IsSpace(TrimLeftSpace(s)[0])
  {
    hide IsSpace;
    pre := "";
    if s != [] && IsSpace(s[0]) {
      pre := LeftTrimmed(s[1..]);
      pre := [s[0]] + pre;
    }
  }

  lemma {:induction false} RightTrimmed(s: string) returns (post: string)
    ensures Blank(post) && s == TrimRightSpace(s) + post
    ensures TrimRightSpace(s) != "" ==> !IsSpace(TrimRightSpace(s)[|TrimRightSpace(s)| - 1])
  {
    hide IsSpace;
    post := "";
    if s != [] && IsSpace(s[|s| - 1]) {
      post := RightTrimmed(s[..|s| - 1]);
      post := post + [s[|s| - 1]];
    }
  }

  lemma TrimmedPlaces(s: string, a: string, t: string, b: string)
    requires Blank(a) && Blank(b) && s == a + t + b
    ensures forall i | 0 <= i < |s| && !(|a| <= i < |a| + |t|) :: IsSpace(s[i])
    ensures t == s[|a|..|a| + |t|]
    ensures t != "" ==> s[|a|] == t[0] && s[|a| + |t| - 1] == t[|t| - 1]
  {
    hide IsSpace;
    forall i | 0 <= i < |s| && !(|a| <= i < |a| + |t|) ensures IsSpace(s[i]) {
      assert s[i] == if i < |a| then a[i] else b[i - |a| - |t|];
    }
  }

  lemma TrimsIsUnique(s: string, t: string, u: string)
    requires Trims(s, t) && Trims(s, u)
    ensures t == u
  {
    hide IsSpace;
    var a, b :| Blank(a) && Blank(b) && s == a + t + b;
    var c, d :| Blank(c) && Blank(d) && s == c + u + d;
    TrimmedPlaces(s, a, t, b);
    TrimmedPlaces(s, c, u, d);
  }

  /** `TrimSpace` takes off exactly the blanks at both ends. */
  lemma TrimSpaceTrims(s: string, t: string)
    ensures TrimSpace(s) == t <==> Trims(s, t)
  {
    hide IsSpace, TrimLeftSpace, TrimRightSpace, Trims;
    var pre := LeftTrimmed(s);
    var post := RightTrimmed(TrimLeftSpace(s));
    TrimmedAt(s, pre, TrimSpace(s), post);
    if Trims(s, t) {
      TrimsIsUnique(s, t, TrimSpace(s));
    }
  }

  lemma TrimmedAt(s: string, pre: string, t: string, post: string)
    requires Blank(pre) && Blank(post) && s == pre + (t + post)
    requires t + post != "" ==> !IsSpace((t + post)[0])
    requires t != "" ==> !IsSpace(t[|t| - 1])
    ensures Trims(s, t)
  {
    hide IsSpace;
    if t != "" { assert (t + post)[0] == t[0]; }
    TrimsBy(s, pre, t, post);
  }

  lemma TrimsBy(s: string, pre: string, t: string, post: string)
    requires Blank(pre) && Blank(post) && s == pre + t + post
    requires t != "" ==> !IsSpace(t[0]) && !IsSpace(t[|t| - 1])
    ensures Trims(s, t)
  {
  }

  lemma OccursOnce(s: string, c: char, i: int)
    ensures OccursAt(s, [c], i) <==> 0 <= i < |s| && s[i] == c
  {
    if 0 <= i < |s| { assert s[i..i + 1] == [s[i]]; }
  }
}
