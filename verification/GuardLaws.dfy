/** What the guard's readings of names, messages and orders mean, in terms of the
    shapes of the texts themselves. */
module GuardLaws {
  import opened CommitGraph
  import opened RefNames
  import opened GuardSpec
  import Sorting
  import opened Text

  // ----- identities -----

  ghost predicate OnRemote(tail: string, remote: string, b: string) {
    '/' !in remote && tail == remote + "/" + b
  }

  /** What follows refs/remotes/ stands for the branch `b`: a remote and `b`, or, where
      there is no slash at all, `b` itself. */
  ghost predicate OfRemote(tail: string, b: string) {
    (exists remote :: OnRemote(tail, remote, b)) || (tail == b && '/' !in b)
  }

  /** A name without refs/heads/ in front stands for the branch `b`. */
  ghost predicate StandsFor(rest: string, b: string) {
    || (rest == b && PlainBranchName(b))
    || rest == "origin/" + b || rest == "upstream/" + b
    || (REMOTES <= rest && OfRemote(rest[|REMOTES|..], b))
  }

  /** A full or short name stands for the branch `b`. */
  ghost predicate Identifies(name: string, b: string) {
    StandsFor(if HEADS <= name then name[|HEADS|..] else name, b)
  }

  lemma RemoteRest(rest: string, b: string)
    ensures (var i := FirstSlash(rest); if i < |rest| then rest[i + 1..] else rest) == b <==> OfRemote(rest, b)
  {
    hide FirstSlash, OnRemote;
    var i := FirstSlash(rest);
    if i < |rest| {
      OnRemoteAt(rest, i);
    } else {
      assert rest[..i] == rest;
    }
    forall remote | OnRemote(rest, remote, b) ensures i < |rest| && rest[i + 1..] == b {
      RemoteFirst(rest, remote, b);
    }
  }

  lemma OnRemoteAt(rest: string, i: int)
    requires 0 <= i < |rest| && rest[i] == '/' && '/' !in rest[..i]
    ensures OnRemote(rest, rest[..i], rest[i + 1..]) && '/' in rest
  {
  }

  lemma RemoteFirst(rest: string, remote: string, b: string)
    requires OnRemote(rest, remote, b)
    ensures FirstSlash(rest) < |rest| && rest[FirstSlash(rest) + 1..] == b
  {
    hide FirstSlash;
    assert rest[..|remote|] == remote;
    FirstSlashAt(rest, |remote|);
  }

  lemma WordFirst(rest: string, word: string)
    requires '/' !in word
    ensures word + "/" <= rest <==> FirstSlash(rest) == |word| < |rest| && rest[..|word|] == word
  {
    hide *;
    BarePrefix(rest, word);
    if word + "/" <= rest {
      assert |rest[..FirstSlash(rest)]| == FirstSlash(rest);
    }
  }

  /** Without refs/remotes/ in front, origin/ or upstream/ is what is taken off. */
  lemma BareRest(rest: string)
    ensures (var i := FirstSlash(rest);
             if i < |rest| && (rest[..i] == "origin" || rest[..i] == "upstream") then rest[i + 1..] else rest) ==
            if "origin/" <= rest then rest[7..] else if "upstream/" <= rest then rest[9..] else rest
  {
    hide *;
    var i := FirstSlash(rest);
    SlashWords();
    WordFirst(rest, "origin");
    WordFirst(rest, "upstream");
    assert rest[..i] == "origin" ==> i == 6 by { if rest[..i] == "origin" { assert |rest[..i]| == 6; } }
    assert rest[..i] == "upstream" ==> i == 8 by { if rest[..i] == "upstream" { assert |rest[..i]| == 8; } }
  }

  lemma SlashWords()
    ensures "origin" + "/" == "origin/" && "upstream" + "/" == "upstream/" && "origin" != "upstream"
    ensures '/' !in "origin" && '/' !in "upstream"
  {
  }

  lemma BareStandsFor(rest: string, b: string)
    requires !(REMOTES <= rest)
    ensures StandsFor(rest, b) <==>
            if "origin/" <= rest then b == rest[7..] else if "upstream/" <= rest then b == rest[9..] else b == rest
  {
    assert ("origin/" + b)[7..] == b && ("upstream/" + b)[9..] == b;
    assert "origin/" <= "origin/" + b && "upstream/" <= "upstream/" + b;
    assert "origin/"[0] != "upstream/"[0];
    if "origin/" <= rest { assert rest == "origin/" + rest[7..]; }
    if "upstream/" <= rest { assert rest == "upstream/" + rest[9..]; }
  }

  /** The identity of a name, by its shape alone, for every name there is. */
  lemma IdentityIs(name: string, b: string)
    ensures ShortRefName(name) == b <==> Identifies(name, b)
  {
    hide FirstSlash, PlainBranchName;
    var rest := TrimPrefix(name, HEADS);
    if REMOTES <= rest {
      var tail := rest[|REMOTES|..];
      assert rest == REMOTES + tail;
      RemoteRest(tail, b);
      RemoteStandsFor(tail, b);
    } else {
      BareRest(rest);
      BareStandsFor(rest, b);
    }
  }

  lemma RemoteStandsFor(tail: string, b: string)
    ensures StandsFor(REMOTES + tail, b) <==> OfRemote(tail, b)
  {
    hide OfRemote;
    var rest := REMOTES + tail;
    assert rest[0] == 'r' && REMOTES <= rest && rest[|REMOTES|..] == tail;
    assert "origin/"[0] == 'o' && "upstream/"[0] == 'u';
    assert PlainBranchName(b) ==> !(REMOTES <= b);
  }

  // ----- candidates -----

  /** A branch by its full name, local or remote-tracking, and no remote's HEAD. */
  ghost predicate NamesABranch(name: string) {
    (exists x :: name == HEADS + x || name == REMOTES + x) && forall x :: name != x + "/HEAD"
  }

  /** None of the branch under check and the bases, under whatever name. */
  ghost predicate OtherThan(repo: Repo, opts: Options, name: string, b: string) {
    !Identifies(name, b) && forall n | n in BaseNames(repo, opts.bases) :: !Identifies(n, b)
  }

  /** A ref is held against the branch if and only if it holds a hash, is a branch by
      its full name, and stands for neither the branch itself nor a base. */
  lemma CandidateIs(repo: Repo, opts: Options, name: string, r: Ref)
    ensures IsCandidate(r, Excluded(repo, opts, name)) <==>
            && r.kind == HashRef && NamesABranch(r.name)
            && exists b :: Identifies(r.name, b) && OtherThan(repo, opts, name, b)
  {
    hide Identifies, ShortRefName, BaseNames;
    var b := ShortRefName(r.name);
    IdentityIs(r.name, b);
    forall c { IdentityIs(r.name, c); }
    ExcludedIs(repo, opts, name, b);
    if HEADS <= r.name { assert r.name == HEADS + r.name[|HEADS|..]; }
    if REMOTES <= r.name { assert r.name == REMOTES + r.name[|REMOTES|..]; }
    if |r.name| >= 5 && r.name[|r.name| - 5..] == "/HEAD" { assert r.name == r.name[..|r.name| - 5] + "/HEAD"; }
    forall x | r.name == x + "/HEAD" ensures |r.name| >= 5 && r.name[|r.name| - 5..] == "/HEAD" { }
  }

  lemma ExcludedIs(repo: Repo, opts: Options, name: string, b: string)
    ensures b in Excluded(repo, opts, name) <==> !OtherThan(repo, opts, name, b)
  {
    hide Identifies, ShortRefName, BaseNames;
    var names := [name] + BaseNames(repo, opts.bases);
    forall n { IdentityIs(n, b); }
    assert name in names;
    assert forall n :: n in names <==> n == name || n in BaseNames(repo, opts.bases);
  }

  /** A remote-tracking branch `b` counts unless `b` is the branch itself or a base. */
  lemma RemoteBranchCounts(repo: Repo, opts: Options, name: string, remote: string, b: string, h: Hash)
    requires '/' !in remote && b != "HEAD" && forall x :: b != x + "/HEAD"
    ensures IsCandidate(Ref(REMOTES + remote + "/" + b, HashRef, h), Excluded(repo, opts, name)) <==>
            OtherThan(repo, opts, name, b)
  {
    hide Identifies, OtherThan, ShortRefName, Excluded;
    RemoteIdentity(remote, b);
    ExcludedIs(repo, opts, name, b);
    NoHead(REMOTES + remote, b);
    assert REMOTES + remote + "/" + b == REMOTES + (remote + "/" + b);
  }

  lemma NoHead(pre: string, b: string)
    requires b != "HEAD" && forall x :: b != x + "/HEAD"
    ensures var full := pre + "/" + b; !(|full| >= 5 && full[|full| - 5..] == "/HEAD")
  {
    var full := pre + "/" + b;
    if |full| >= 5 {
      HeadIsLast(pre, b, full[..|full| - 5]);
      assert full == full[..|full| - 5] + full[|full| - 5..];
    }
  }

  lemma HeadIsLast(pre: string, b: string, x: string)
    ensures pre + "/" + b == x + "/HEAD" ==> b == "HEAD" || exists y :: b == y + "/HEAD"
  {
    var full, i := pre + "/" + b, |pre|;
    if full == x + "/HEAD" {
      assert full[i] == '/' && full[|full| - 4..] == "HEAD";
      assert forall j | |full| - 4 <= j < |full| :: full[j] == "HEAD"[j - |full| + 4] != '/';
      assert b == full[i + 1..];
      if i < |x| { assert b == x[i + 1..] + "/HEAD"; }
    }
  }

  /** The same for a local branch with a plain name. */
  lemma LocalBranchCounts(repo: Repo, opts: Options, name: string, b: string, h: Hash)
    requires PlainBranchName(b) && b != "HEAD" && forall x :: b != x + "/HEAD"
    ensures IsCandidate(Ref(HEADS + b, HashRef, h), Excluded(repo, opts, name)) <==> OtherThan(repo, opts, name, b)
  {
    hide Identifies, OtherThan, ShortRefName, Excluded;
    LocalIdentity(b);
    ExcludedIs(repo, opts, name, b);
    NoHead("refs/heads", b);
    assert "refs/heads" + "/" + b == HEADS + b;
  }

  /** Symbolic refs, a remote's HEAD, tags and notes never count. */
  lemma NeverCounts(r: Ref, excluded: set<string>)
    requires r.kind == SymbolicRef || (exists remote :: r.name == REMOTES + remote + "/HEAD")
             || (exists x :: r.name == "refs/tags/" + x || r.name == "refs/notes/" + x)
    ensures !IsCandidate(r, excluded)
  {
    hide ShortRefName;
    if remote :| r.name == REMOTES + remote + "/HEAD" {
      assert r.name[|r.name| - 5..] == "/HEAD";
    }
    if x :| r.name == "refs/tags/" + x || r.name == "refs/notes/" + x {
      assert r.name[5] == 't' || r.name[5] == 'n';
      assert HEADS[5] == 'h' && REMOTES[5] == 'r';
    }
  }

  /** What a reader sees: a local branch by its name, a remote one with its remote. */
  lemma DisplayedAs(x: string)
    ensures DisplayRefName(HEADS + x) == x && DisplayRefName(REMOTES + x) == x
    ensures !IsRemote(HEADS + x) && IsRemote(REMOTES + x)
  {
    assert (HEADS + x)[5] == 'h' && REMOTES[5] == 'r';
    assert (HEADS + x)[|HEADS|..] == x && (REMOTES + x)[|REMOTES|..] == x;
    assert REMOTES <= REMOTES + x && HEADS <= HEADS + x;
  }

  // ----- the branch under check -----

  /** A name is a local branch's if refs/heads/ has it, given short or in full; a
      remote-tracking name never is; without a name, what HEAD points to decides. */
  lemma LocalBranchIs(repo: Repo, b: string)
    requires !(HEADS <= b)
    ensures b != "" && !(REMOTES <= b) ==>
              (IsLocalBranch(repo, b) <==> exists r | r in repo.refs :: r.name == HEADS + b)
    ensures b != "" ==> (IsLocalBranch(repo, HEADS + b) <==> exists r | r in repo.refs :: r.name == HEADS + b)
    ensures !IsLocalBranch(repo, REMOTES + b)
    ensures IsLocalBranch(repo, "") <==> repo.head.Some? && exists x :: repo.head.value.name == HEADS + x
  {
    assert (HEADS + b)[|HEADS|..] == b && HEADS <= HEADS + b && REMOTES <= REMOTES + b;
    assert (HEADS + b)[5] == 'h' && REMOTES[5] == 'r';
    if repo.head.Some? && HEADS <= repo.head.value.name {
      assert repo.head.value.name == HEADS + repo.head.value.name[|HEADS|..];
    }
  }

  // ----- messages -----

  /** A line of the message gives the reason: blanks, the trailer, and the reason
      with blanks around it. */
  ghost predicate Gives(line: string, reason: string) {
    reason != "" && exists pre, rest :: Blank(pre) && line == pre + OVERRIDE_TRAILER + rest && Trims(rest, reason)
  }

  lemma TrailerIsSolid()
    ensures |OVERRIDE_TRAILER| == 22 && !IsSpace(OVERRIDE_TRAILER[0]) && !IsSpace(OVERRIDE_TRAILER[21])
  {
    assert OVERRIDE_TRAILER[0] == 'B' && OVERRIDE_TRAILER[21] == ':';
  }

  lemma LineReasonGives(line: string)
    requires LineReason(line) != ""
    ensures Gives(line, LineReason(line))
  {
    hide TrimSpace, IsSpace;
    var trimmed, reason := TrimSpace(line), LineReason(line);
    var tail := trimmed[|OVERRIDE_TRAILER|..];
    TrimSpaceTrims(line, trimmed);
    TrimSpaceTrims(tail, reason);
    var pre, post :| Blank(pre) && Blank(post) && line == pre + trimmed + post;
    var rest := tail + post;
    assert trimmed == OVERRIDE_TRAILER + tail;
    assert line == pre + OVERRIDE_TRAILER + rest;
    TrimsMore(tail, post, reason);
  }

  lemma TrimsMore(s: string, post: string, t: string)
    requires Trims(s, t) && Blank(post)
    ensures Trims(s + post, t)
  {
    hide IsSpace;
    var a, b :| Blank(a) && Blank(b) && s == a + t + b;
    TrimsBy(s + post, a, t, b + post);
  }

  lemma GivenIsLineReason(line: string, reason: string)
    requires Gives(line, reason)
    ensures LineReason(line) == reason
  {
    hide TrimSpace, IsSpace;
    TrailerIsSolid();
    var pre, rest :| Blank(pre) && line == pre + OVERRIDE_TRAILER + rest && Trims(rest, reason);
    var a, z :| Blank(a) && Blank(z) && rest == a + reason + z;
    var core := OVERRIDE_TRAILER + (a + reason);
    assert line == pre + core + z;
    assert core[|core| - 1] == reason[|reason| - 1] && core[0] == OVERRIDE_TRAILER[0];
    TrimsBy(line, pre, core, z);
    TrimSpaceTrims(line, core);
    assert core[|OVERRIDE_TRAILER|..] == a + reason && OVERRIDE_TRAILER <= core;
    TrimsBy(a + reason, a, reason, "");
    TrimSpaceTrims(a + reason, reason);
  }

  /** A line gives a reason exactly when it is blanks, the trailer and that text. */
  lemma LineReasonIs(line: string, reason: string)
    requires reason != ""
    ensures LineReason(line) == reason <==> Gives(line, reason)
  {
    hide LineReason, Gives;
    if LineReason(line) == reason { LineReasonGives(line); }
    if Gives(line, reason) { GivenIsLineReason(line, reason); }
  }

  ghost predicate FirstGiving(lines: seq<string>, reason: string, i: int) {
    0 <= i < |lines| && Gives(lines[i], reason) && forall j, r | 0 <= j < i :: !Gives(lines[j], r)
  }

  /** The reason of a message, by its lines: that of the first line that gives one,
      and none if and only if no line does. */
  lemma ReasonOfMessage(lines: seq<string>, reason: string)
    requires lines != [] && forall l | l in lines :: '\n' !in l
    ensures var message := Join(lines, "\n");
            && (OverrideReason(message) == "" <==> forall l, r | l in lines :: !Gives(l, r))
            && (reason != "" ==>
                  (OverrideReason(message) == reason <==>
                   exists i :: FirstGiving(lines, reason, i)))
  {
    hide LineReason, ReasonIn, Gives;
    SplitUndoesJoin(lines, '\n');
    assert "\n" == ['\n'];
    FirstReasonDecides(lines);
    forall l, r | r != "" { LineReasonIs(l, r); }
    forall l { GivesSomething(l); }
    if reason != "" && OverrideReason(Join(lines, "\n")) == reason {
      var i :| 0 <= i < |lines| && ReasonIn(lines) == LineReason(lines[i])
               && forall j | 0 <= j < i :: LineReason(lines[j]) == "";
      assert Gives(lines[i], reason);
      assert FirstGiving(lines, reason, i);
    }
    if i :| reason != "" && FirstGiving(lines, reason, i) {
      var k :| 0 <= k < |lines| && ReasonIn(lines) == LineReason(lines[k])
               && forall j | 0 <= j < k :: LineReason(lines[j]) == "";
      assert lines[i] in lines && LineReason(lines[i]) == reason;
      assert k == i;
    }
  }

  lemma GivesSomething(line: string)
    ensures LineReason(line) == "" <==> forall r :: !Gives(line, r)
  {
    hide LineReason;
    forall r | r != "" { LineReasonIs(line, r); }
    if LineReason(line) != "" { assert Gives(line, LineReason(line)); }
  }

  /** A blank trailer waives nothing; a trailer with text gives that text. */
  lemma TrailerGivesItsText(blanks: string, text: string)
    requires Blank(blanks) && text != "" && !IsSpace(text[0]) && !IsSpace(text[|text| - 1])
    ensures LineReason(OVERRIDE_TRAILER + blanks) == "" && LineReason(OVERRIDE_TRAILER + blanks + text) == text
  {
    hide LineReason, IsSpace, TrimSpace;
    var line := OVERRIDE_TRAILER + blanks + text;
    assert line == "" + OVERRIDE_TRAILER + (blanks + text);
    TrimsBy(blanks + text, blanks, text, "");
    assert Blank("");
    LineReasonIs(line, text);
    BlankTrailerGivesNothing(blanks);
  }

  lemma BlankTrailerGivesNothing(blanks: string)
    requires Blank(blanks)
    ensures LineReason(OVERRIDE_TRAILER + blanks) == ""
  {
    hide IsSpace, TrimSpace;
    TrailerIsSolid();
    var line := OVERRIDE_TRAILER + blanks;
    TrimsBy(line, "", OVERRIDE_TRAILER, blanks);
    TrimSpaceTrims(line, OVERRIDE_TRAILER);
    assert OVERRIDE_TRAILER[|OVERRIDE_TRAILER|..] == "";
    TrimsBy("", "", "", "");
    TrimSpaceTrims("", "");
  }

  /** The subject is the first line without the blanks around it. */
  lemma SubjectIs(first: string, rest: string)
    requires '\n' !in first
    ensures Trims(first, Subject(first)) && Subject(first + "\n" + rest) == Subject(first)
  {
    hide TrimSpace, IsSpace;
    var message := first + "\n" + rest;
    TrimSpaceTrims(first, TrimSpace(first));
    forall j { OccursOnce(first, '\n', j); }
    forall j { OccursOnce(message, '\n', j); }
    assert "\n" == ['\n'] && message[|first|] == '\n';
    assert forall j | 0 <= j < |first| :: message[j] == first[j];
    IndexIsFirst(message, "\n", |first|);
    assert message[..|first|] == first;
  }

  // ----- orders -----

  /** Byte order: at the first difference the smaller character, or a beginning. */
  lemma {:induction false} StringLessIs(a: string, b: string)
    ensures Sorting.StringLess(a, b) <==>
            a < b || exists i :: 0 <= i < |a| && i < |b| && a[..i] == b[..i] && a[i] < b[i]
    decreases |a|
  {
    if a != [] && b != [] && a[0] == b[0] {
      StringLessIs(a[1..], b[1..]);
      assert a == [a[0]] + a[1..] && b == [b[0]] + b[1..];
      if i :| 0 <= i < |a| && i < |b| && a[..i] == b[..i] && a[i] < b[i] {
        assert i > 0 && a[1..][..i - 1] == a[..i][1..] == b[..i][1..] == b[1..][..i - 1];
        assert a[1..][i - 1] < b[1..][i - 1];
      }
      if i :| 0 <= i < |a[1..]| && i < |b[1..]| && a[1..][..i] == b[1..][..i] && a[1..][i] < b[1..][i] {
        assert a[..i + 1] == [a[0]] + a[1..][..i] && b[..i + 1] == [b[0]] + b[1..][..i];
        assert a[i + 1] < b[i + 1];
      }
    } else if a != [] && b != [] {
      assert a[..0] == b[..0];
      forall i | 0 < i < |a| && i < |b| ensures a[..i] != b[..i] { assert a[..i][0] != b[..i][0]; }
    }
  }

  /** Listed commits: older ones first, of one time the smaller hash first. */
  lemma CommitsAreOldestFirst(g: map<Hash, Commit>, s: set<Hash>, out: seq<CommitLine>, i: int, j: int)
    requires s <= g.Keys && ListsCommits(g, s, out) && 0 <= i < j < |out|
    ensures g[out[i].hash].time <= g[out[j].hash].time
    ensures g[out[i].hash].time == g[out[j].hash].time ==> Sorting.StringLess(out[i].hash, out[j].hash)
  {
  }

  /** Candidates: local branches first, each kind by name. */
  lemma LocalCandidatesFirst(cs: seq<Candidate>, i: int, j: int)
    requires Sorting.Increasing(CandidateLess, cs) && 0 <= i < j < |cs|
    ensures cs[i].remote ==> cs[j].remote
    ensures cs[i].remote == cs[j].remote ==>
              cs[i].display == cs[j].display || Sorting.StringLess(cs[i].display, cs[j].display)
  {
  }

  /** The paths of a commit: those at which its tree and its first parent's differ. */
  lemma ChangedIs(g: Store, c: Commit, p: string)
    requires c.parents != [] && c.parents[0] in g
    ensures var before := g[c.parents[0]].tree;
            p in ChangedBy(g, c) <==>
            || (p in before && p !in c.tree) || (p !in before && p in c.tree)
            || (p in before && p in c.tree && before[p] != c.tree[p])
  {
  }
}
