/** The gate that tells whether a guest's store has something new to land. */
module LandReady {
  import Sorting
  import Text

  /** The readable files of the store that a commit moves, by path. */
  type Refs = map<string, string>

  const NUL := '\0'

  /** What is fed to the hash: each path and content, each closed by a NUL. */
  function Serial(paths: seq<string>, refs: Refs): string
    requires forall p | p in paths :: p in refs
  {
    if paths == [] then [] else paths[0] + [NUL] + refs[paths[0]] + [NUL] + Serial(paths[1..], refs)
  }

  ghost predicate NulFree(refs: Refs) {
    forall p | p in refs :: NUL !in p && NUL !in refs[p]
  }

  /** `fp` is the fingerprint of the store: empty when there is no store. */
  ghost predicate IsFingerprint(hash: string -> string, refs: Refs, fp: string) {
    if refs == map[] then fp == ""
    else
      exists paths: seq<string> ::
        Sorting.Lists<string>(Sorting.StringLess, paths, refs.Keys) && fp == hash(Serial(paths, refs))
  }

  lemma NothingSerial(refs: Refs)
    ensures Serial([], refs) == ""
  {
  }

  lemma SerialStep(input: string, paths: seq<string>, refs: Refs)
    requires paths != [] && forall p | p in paths :: p in refs
    ensures input + Serial(paths, refs) == input + paths[0] + [NUL] + refs[paths[0]] + [NUL] + Serial(paths[1..], refs)
  {
  }

  method StoreFingerprint(hash: string -> string, refs: Refs) returns (fp: string)
    ensures IsFingerprint(hash, refs, fp)
  {
    hide Sorting.StringLess, Sorting.Increasing, Serial;
    var paths := Sorting.SortedStrings(refs.Keys);
    assert forall p | p in refs :: p in paths;
    var input, seen := "", false;
    for i := 0 to |paths|
      invariant input + Serial(paths[i..], refs) == Serial(paths, refs)
      invariant seen <==> i > 0
    {
      var p := paths[i];
      SerialStep(input, paths[i..], refs);
      input := input + p + [NUL];
      input := input + refs[p] + [NUL];
      seen := true;
      assert paths[i..][1..] == paths[i + 1..];
    }
    if !seen {
      assert paths == [];
      return "";
    }
    assert paths[|paths|..] == [];
    NothingSerial(refs);
    assert input == Serial(paths, refs) && paths[0] in refs.Keys;
    fp := hash(input);
  }

  lemma CutAtNul(a: string, x: string, b: string, y: string)
    requires a + [NUL] + x == b + [NUL] + y && NUL !in a && NUL !in b
    ensures a == b && x == y
  {
    var s := a + [NUL] + x;
    assert s[|a|] == NUL && s[|b|] == NUL;
    assert forall i | 0 <= i < |a| :: s[i] == a[i];
    assert forall i | 0 <= i < |b| :: s[i] == b[i];
    assert |a| == |b|;
    assert a == s[..|a|] == b;
    assert x == s[|a| + 1..] == y;
  }

  lemma {:induction false} SerialIsInjective(ps: seq<string>, r: Refs, qs: seq<string>, t: Refs)
    requires (forall p | p in ps :: p in r) && (forall q | q in qs :: q in t)
    requires NulFree(r) && NulFree(t) && Serial(ps, r) == Serial(qs, t)
    ensures ps == qs && forall p | p in ps :: r[p] == t[p]
    decreases |ps|
  {
    if ps != [] && qs != [] {
      var p, q := ps[0], qs[0];
      var x, y := r[p] + [NUL] + Serial(ps[1..], r), t[q] + [NUL] + Serial(qs[1..], t);
      assert Serial(ps, r) == p + [NUL] + x && Serial(qs, t) == q + [NUL] + y;
      CutAtNul(p, x, q, y);
      CutAtNul(r[p], Serial(ps[1..], r), t[q], Serial(qs[1..], t));
      SerialIsInjective(ps[1..], r, qs[1..], t);
      assert ps == [p] + ps[1..] && qs == [q] + qs[1..];
    }
  }

  /** No two inputs share a hash, and a hash is never the empty string. */
  ghost predicate CollisionFree(hash: string -> string) {
    (forall x, y :: hash(x) == hash(y) ==> x == y) && forall x :: hash(x) != ""
  }

  /** One store has one fingerprint, whatever the hash. */
  lemma FingerprintIsUnique(hash: string -> string, r: Refs, fp: string, fq: string)
    requires IsFingerprint(hash, r, fp) && IsFingerprint(hash, r, fq)
    ensures fp == fq
  {
    hide Sorting.StringLess;
    if r != map[] {
      var ps: seq<string> :| Sorting.Lists<string>(Sorting.StringLess, ps, r.Keys) && fp == hash(Serial(ps, r));
      var qs: seq<string> :| Sorting.Lists<string>(Sorting.StringLess, qs, r.Keys) && fq == hash(Serial(qs, r));
      Sorting.StringOrder();
      Sorting.ListingIsUnique<string>(Sorting.StringLess, ps, qs, r.Keys);
    }
  }

  /** Two fingerprints are equal exactly when the stores are. */
  lemma FingerprintIsExact(hash: string -> string, r: Refs, fp: string, t: Refs, fq: string)
    requires CollisionFree(hash) && NulFree(r) && NulFree(t)
    requires IsFingerprint(hash, r, fp) && IsFingerprint(hash, t, fq)
    ensures fp == fq <==> r == t
  {
    hide Sorting.StringLess;
    if r != map[] && t != map[] {
      var ps: seq<string> :| Sorting.Lists<string>(Sorting.StringLess, ps, r.Keys) && fp == hash(Serial(ps, r));
      var qs: seq<string> :| Sorting.Lists<string>(Sorting.StringLess, qs, t.Keys) && fq == hash(Serial(qs, t));
      if fp == fq {
        SerialIsInjective(ps, r, qs, t);
        assert r.Keys == t.Keys;
        assert forall p | p in r :: p in ps;
        assert r == t;
      }
    }
    if r == t {
      FingerprintIsUnique(hash, r, fp, fq);
    }
  }

  // ----- stores with NULs -----

  /** The NUL-free pieces that the paths and contents fall into, in path order. */
  function Pieces(paths: seq<string>, refs: Refs): seq<string>
    requires forall p | p in paths :: p in refs
  {
    if paths == [] then []
    else Text.Split(paths[0], NUL) + Text.Split(refs[paths[0]], NUL) + Pieces(paths[1..], refs)
  }

  function Closed(pieces: seq<string>): string {
    if pieces == [] then "" else pieces[0] + [NUL] + Closed(pieces[1..])
  }

  lemma {:induction false} ClosedJoins(a: seq<string>, b: seq<string>)
    ensures Closed(a + b) == Closed(a) + Closed(b)
  {
    if a == [] {
      assert a + b == b;
    } else {
      assert (a + b)[1..] == a[1..] + b;
      ClosedJoins(a[1..], b);
    }
  }

  lemma {:induction false} SplitCloses(s: string)
    ensures Closed(Text.Split(s, NUL)) == s + [NUL]
    ensures forall piece | piece in Text.Split(s, NUL) :: NUL !in piece
  {
    if s == [] {
      assert [""][1..] == [];
    } else {
      SplitCloses(s[1..]);
      var rest := Text.Split(s[1..], NUL);
      if s[0] == NUL {
        assert ([""] + rest)[1..] == rest;
      } else {
        var all := [[s[0]] + rest[0]] + rest[1..];
        assert all[1..] == rest[1..];
        assert Closed(all) == [s[0]] + Closed(rest);
        assert rest[0] in rest;
      }
    }
  }

  lemma {:induction false} SerialClosesPieces(paths: seq<string>, refs: Refs)
    requires forall p | p in paths :: p in refs
    ensures Serial(paths, refs) == Closed(Pieces(paths, refs))
    ensures forall piece | piece in Pieces(paths, refs) :: NUL !in piece
  {
    hide Text.Split, Closed;
    if paths == [] {
      NothingCloses();
    } else {
      var p, rest := paths[0], Pieces(paths[1..], refs);
      SplitCloses(p);
      SplitCloses(refs[p]);
      SerialClosesPieces(paths[1..], refs);
      ClosedJoins(Text.Split(p, NUL), Text.Split(refs[p], NUL));
      ClosedJoins(Text.Split(p, NUL) + Text.Split(refs[p], NUL), rest);
    }
  }

  lemma NothingCloses()
    ensures Closed([]) == ""
  {
  }

  lemma {:induction false} ClosedIsInjective(a: seq<string>, b: seq<string>)
    requires (forall x | x in a :: NUL !in x) && (forall y | y in b :: NUL !in y) && Closed(a) == Closed(b)
    ensures a == b
    decreases |a|
  {
    if a != [] && b != [] {
      CutAtNul(a[0], Closed(a[1..]), b[0], Closed(b[1..]));
      ClosedIsInjective(a[1..], b[1..]);
      assert a == [a[0]] + a[1..] && b == [b[0]] + b[1..];
    }
  }

  /** Exactly what a fingerprint can tell apart, NULs or not: two stores look the
      same if and only if their paths and contents, cut at every NUL, are the same
      pieces in the same order. */
  lemma FingerprintSeesPieces(hash: string -> string, r: Refs, ps: seq<string>, t: Refs, qs: seq<string>)
    requires CollisionFree(hash) && (forall p | p in ps :: p in r) && (forall q | q in qs :: q in t)
    ensures hash(Serial(ps, r)) == hash(Serial(qs, t)) <==> Pieces(ps, r) == Pieces(qs, t)
  {
    hide Serial, Pieces, Closed;
    SerialClosesPieces(ps, r);
    SerialClosesPieces(qs, t);
    if Serial(ps, r) == Serial(qs, t) {
      ClosedIsInjective(Pieces(ps, r), Pieces(qs, t));
    }
  }

  /** With a NUL in a file's content two different stores can be fed to the hash
      as the same bytes, so a change between them goes unnoticed: for any two paths
      and contents there is such a pair. */
  lemma NulHidesAChange(hash: string -> string, p: string, q: string, x: string, y: string)
    requires Sorting.StringLess(p, q) && p != q
    ensures var one: Refs := map[p := x + [NUL] + q + [NUL] + y];
            && var two: Refs := map[p := x, q := y];
            one != two && exists fp :: IsFingerprint(hash, one, fp) && IsFingerprint(hash, two, fp)
  {
    hide Sorting.StringLess;
    var one: Refs, two: Refs := map[p := x + [NUL] + q + [NUL] + y], map[p := x, q := y];
    assert q !in one && q in two;
    var ps, qs := [p], [p, q];
    assert Sorting.Lists<string>(Sorting.StringLess, ps, one.Keys);
    assert Sorting.Lists<string>(Sorting.StringLess, qs, two.Keys) by {
      assert forall s: string :: s in qs <==> s == p || s == q;
    }
    assert ps[1..] == [] && qs[1..] == [q] && [q][1..] == [];
    assert Serial([q], two) == q + [NUL] + y + [NUL] + [];
    assert Serial(ps, one) == Serial(qs, two);
    assert IsFingerprint(hash, one, hash(Serial(ps, one)));
    assert IsFingerprint(hash, two, hash(Serial(qs, two)));
  }

  /** `pieces` is what the hash is fed of the store. */
  ghost predicate Looks(refs: Refs, pieces: seq<string>) {
    exists paths: seq<string> ::
      Sorting.Lists<string>(Sorting.StringLess, paths, refs.Keys) && pieces == Pieces(paths, refs)
  }

  /** The two stores fall into the same pieces. */
  ghost predicate Alike(r: Refs, t: Refs) {
    exists pieces :: Looks(r, pieces) && Looks(t, pieces)
  }

  lemma NoStoreLooksEmpty(pieces: seq<string>)
    ensures Looks(map[], pieces) <==> pieces == []
  {
    hide Sorting.StringLess;
    var none: Refs, nothing: seq<string> := map[], [];
    assert Sorting.Lists<string>(Sorting.StringLess, nothing, none.Keys);
    if Looks(none, pieces) {
      var paths: seq<string> :| Sorting.Lists<string>(Sorting.StringLess, paths, none.Keys)
                                && pieces == Pieces(paths, none);
      assert forall p | p in paths :: p in none.Keys;
      assert paths == [];
    }
  }

  lemma LooksAre(refs: Refs, paths: seq<string>, pieces: seq<string>)
    requires Sorting.Lists<string>(Sorting.StringLess, paths, refs.Keys)
    ensures Looks(refs, pieces) <==> pieces == Pieces(paths, refs)
    ensures refs != map[] ==> Pieces(paths, refs) != []
  {
    hide Sorting.StringLess;
    if Looks(refs, pieces) {
      var other: seq<string> :| Sorting.Lists<string>(Sorting.StringLess, other, refs.Keys)
                                && pieces == Pieces(other, refs);
      Sorting.StringOrder();
      Sorting.ListingIsUnique<string>(Sorting.StringLess, other, paths, refs.Keys);
    }
    if refs != map[] {
      var p :| p in refs;
      assert p in paths;
    }
  }

  /** Two fingerprints are equal exactly when the stores fall into the same pieces. */
  lemma FingerprintSeesAlike(hash: string -> string, r: Refs, fp: string, t: Refs, fq: string)
    requires CollisionFree(hash) && IsFingerprint(hash, r, fp) && IsFingerprint(hash, t, fq)
    ensures fp == fq <==> Alike(r, t)
  {
    hide Sorting.StringLess, Pieces, Serial, Looks;
    forall pieces { NoStoreLooksEmpty(pieces); }
    if r != map[] {
      var ps: seq<string> :| Sorting.Lists<string>(Sorting.StringLess, ps, r.Keys) && fp == hash(Serial(ps, r));
      forall pieces { LooksAre(r, ps, pieces); }
      if t != map[] {
        var qs: seq<string> :| Sorting.Lists<string>(Sorting.StringLess, qs, t.Keys) && fq == hash(Serial(qs, t));
        forall pieces { LooksAre(t, qs, pieces); }
        FingerprintSeesPieces(hash, r, ps, t, qs);
        assert Looks(r, Pieces(ps, r)) && Looks(t, Pieces(qs, t));
      }
    } else if t != map[] {
      var qs: seq<string> :| Sorting.Lists<string>(Sorting.StringLess, qs, t.Keys) && fq == hash(Serial(qs, t));
      forall pieces { LooksAre(t, qs, pieces); }
    } else {
      var none: seq<string> := [];
      NoStoreLooksEmpty(none);
      assert Looks(r, none) && Looks(t, none);
    }
  }

  // ----- the gate -----

  class Gate {
    const hash: string -> string
    var last: string
    /** The store as of the last look. */
    ghost var looked: Refs

    ghost predicate Valid()
      reads this
    {
      IsFingerprint(hash, looked, last)
    }

    constructor (hash: string -> string, refs: Refs)
      ensures Valid() && looked == refs && this.hash == hash
    {
      var fp := StoreFingerprint(hash, refs);
      this.hash, last, looked := hash, fp, refs;
    }

    /** A look never signals without a change, whatever the hash; and it signals
        exactly when the store no longer falls into the same pieces. */
    method Changed(refs: Refs) returns (signal: bool)
      requires Valid()
      modifies this
      ensures Valid() && looked == refs
      ensures Signals(hash, old(looked), refs, signal)
    {
      hide IsFingerprint;
      var now := StoreFingerprint(hash, refs);
      Compared(hash, refs, now, looked, last);
      looked := refs;
      if now == last {
        return false;
      }
      last := now;
      return true;
    }
  }

  /** What a look tells about the store before it and the store at it. */
  ghost predicate Signals(hash: string -> string, before: Refs, now: Refs, signal: bool) {
    && (signal ==> now != before)
    && (CollisionFree(hash) ==> (signal <==> !Alike(before, now)))
    && (CollisionFree(hash) && NulFree(before) && NulFree(now) ==> (signal <==> now != before))
  }

  lemma Compared(hash: string -> string, r: Refs, fp: string, t: Refs, fq: string)
    requires IsFingerprint(hash, r, fp) && IsFingerprint(hash, t, fq)
    ensures Signals(hash, t, r, fp != fq)
  {
    hide IsFingerprint, NulFree, CollisionFree, Looks;
    if CollisionFree(hash) {
      FingerprintSeesAlike(hash, t, fq, r, fp);
    }
    if r == t {
      FingerprintIsUnique(hash, r, fp, fq);
    }
    if CollisionFree(hash) && NulFree(t) && NulFree(r) {
      FingerprintIsExact(hash, r, fp, t, fq);
    }
  }

  /** Over any history of looks, however the store changed in between, a look signals
      exactly when the store does not fall into the pieces the look before it saw,
      which without NULs is when it differs; so every observed change is signalled
      once and no look signals twice. */
  method Watch(hash: string -> string, first: Refs, looks: seq<Refs>) returns (signals: seq<bool>)
    ensures |signals| == |looks|
    ensures forall i | 0 <= i < |looks| :: Signals(hash, if i == 0 then first else looks[i - 1], looks[i], signals[i])
  {
    hide IsFingerprint, Signals;
    var gate := new Gate(hash, first);
    signals := [];
    for n := 0 to |looks|
      invariant gate.Valid() && gate.hash == hash && gate.looked == (if n == 0 then first else looks[n - 1])
      invariant |signals| == n
      invariant forall i | 0 <= i < n :: Signals(hash, if i == 0 then first else looks[i - 1], looks[i], signals[i])
    {
      var signal := gate.Changed(looks[n]);
      signals := signals + [signal];
    }
  }
}
