/** Reference names and the branch identity used to tell a branch from the others. */
module RefNames {

  const HEADS := "refs/heads/"
  const REMOTES := "refs/remotes/"

  function TrimPrefix(s: string, p: string): string {
    if p <= s then s[|p|..] else s
  }

  /** The index of the first '/', or the length when there is none. */
  function FirstSlash(s: string): (i: nat)
    ensures i <= |s| && '/' !in s[..i] && (i < |s| ==> s[i] == '/')
  {
    if s == [] || s[0] == '/' then 0 else
      var i := 1 + FirstSlash(s[1..]);
      assert s[..i] == [s[0]] + s[1..][..i - 1];
      i
  }

  /** The branch identity: refs/heads/, refs/remotes/<remote>/ and a bare
      origin/ or upstream/ are taken off. */
  function ShortRefName(full: string): string {
    var name := TrimPrefix(full, HEADS);
    if REMOTES <= name then
      var rest := name[|REMOTES|..];
      var i := FirstSlash(rest);
      if i < |rest| then rest[i + 1..] else rest
    else
      var i := FirstSlash(name);
      if i < |name| && (name[..i] == "origin" || name[..i] == "upstream") then name[i + 1..] else name
  }

  function DisplayRefName(name: string): string {
    if REMOTES <= name then name[|REMOTES|..] else TrimPrefix(name, HEADS)
  }

  predicate IsRemote(name: string) {
    REMOTES <= name
  }

  /** What a local branch name may not begin with if it and its remote-tracking
      twin are to have one identity. */
  predicate PlainBranchName(b: string) {
    !("origin/" <= b) && !("upstream/" <= b) && !(REMOTES <= b)
  }

  lemma FirstSlashAt(s: string, i: nat)
    requires i < |s| && s[i] == '/' && '/' !in s[..i]
    ensures FirstSlash(s) == i
  {
    hide *;
    assert forall j | 0 <= j < i :: s[..i][j] == s[j];
    assert forall j | 0 <= j < FirstSlash(s) :: s[..FirstSlash(s)][j] == s[j];
  }

  /** Under refs/remotes/ everything up to the first slash is taken off. */
  lemma FirstSegmentGoes(rest: string, i: nat)
    requires i < |rest| && rest[i] == '/' && '/' !in rest[..i]
    ensures ShortRefName(REMOTES + rest) == rest[i + 1..]
  {
    hide FirstSlash;
    var full := REMOTES + rest;
    assert full[0..11] != HEADS by { assert full[5] == 'r'; }
    assert full[|REMOTES|..] == rest;
    FirstSlashAt(rest, i);
  }

  lemma RemoteIdentity(remote: string, b: string)
    requires '/' !in remote
    ensures ShortRefName(REMOTES + remote + "/" + b) == b
  {
    hide *;
    var rest := remote + "/" + b;
    assert REMOTES + remote + "/" + b == REMOTES + rest;
    assert rest[..|remote|] == remote;
    FirstSegmentGoes(rest, |remote|);
    assert rest[|remote| + 1..] == b;
  }

  /** Only the first segment of a remote's name is taken off. */
  lemma SlashedRemoteIdentity(remote: string, b: string)
    requires '/' in remote
    ensures ShortRefName(REMOTES + remote + "/" + b) == remote[FirstSlash(remote) + 1..] + "/" + b
  {
    hide *;
    var i, rest := FirstSlash(remote), remote + "/" + b;
    assert REMOTES + remote + "/" + b == REMOTES + rest;
    assert remote[..|remote|] == remote;
    assert i < |remote| && rest[..i] == remote[..i];
    FirstSegmentGoes(rest, i);
    assert rest[i + 1..] == remote[i + 1..] + "/" + b;
  }

  lemma BarePrefix(b: string, word: string)
    requires '/' !in word
    ensures word + "/" <= b <==> FirstSlash(b) < |b| && b[..FirstSlash(b)] == word
  {
    hide *;
    if word + "/" <= b {
      assert b[..|word|] == (word + "/")[..|word|] == word;
      assert b[|word|] == (word + "/")[|word|];
      FirstSlashAt(b, |word|);
    }
  }

  lemma LocalIdentity(b: string)
    ensures ShortRefName(HEADS + b) == b <==> PlainBranchName(b)
  {
    hide FirstSlash;
    assert TrimPrefix(HEADS + b, HEADS) == b;
    BarePrefix(b, "origin");
    BarePrefix(b, "upstream");
    assert "origin" + "/" == "origin/" && "upstream" + "/" == "upstream/";
  }

  lemma ShortIsNoLonger(b: string)
    ensures |ShortRefName(HEADS + b)| <= |b|
  {
    hide FirstSlash;
    assert TrimPrefix(HEADS + b, HEADS) == b;
  }

  /** A local branch and its remote-tracking twin have one identity exactly when
      the remote's name has no slash and the local name does not itself look
      remote-qualified. */
  lemma TwinIdentity(remote: string, b: string)
    ensures ShortRefName(HEADS + b) == ShortRefName(REMOTES + remote + "/" + b) <==>
            '/' !in remote && PlainBranchName(b)
  {
    hide *;
    if '/' in remote {
      SlashedRemoteIdentity(remote, b);
      ShortIsNoLonger(b);
    } else {
      RemoteIdentity(remote, b);
      LocalIdentity(b);
    }
  }
}
