/** What a land that stops before its append costs: the objects it has imported are
    taken for the host's own from then on. */
module LandImport {
  import opened CommitGraph
  import opened LandModel
  import opened LandSpec

  /** The part of the batch that is still unknown to the store is the slice from
      `i` to `j`: what has been imported is a beginning and an end of the batch. */
  ghost predicate OnlySliceIsNew(chain: seq<Hash>, ledger: seq<Row>, commits: Store, i: int, j: int) {
    && 0 <= i <= j <= |chain|
    && forall k | 0 <= k < |chain| :: Known(chain[k], ledger, commits) <==> k < i || j <= k
  }

  predicate Known(h: Hash, ledger: seq<Row>, commits: Store) {
    h in commits || InLedger(ledger, h)
  }

  lemma NewOfOneMore(front: seq<Hash>, last: Hash, ledger: seq<Row>, commits: Store)
    ensures NewCommits(front + [last], ledger, commits)
         == NewCommits(front, ledger, commits) + if Known(last, ledger, commits) then [] else [last]
  {
    hide InLedger;
    assert (front + [last])[..|front|] == front;
  }

  lemma {:induction false} SliceIsWhatIsNew(chain: seq<Hash>, ledger: seq<Row>, commits: Store, i: int, j: int)
    requires OnlySliceIsNew(chain, ledger, commits, i, j)
    ensures NewCommits(chain, ledger, commits) == chain[i..j]
  {
    hide Known, NewCommits;
    if chain == [] {
      NothingIsNew(ledger, commits);
    } else {
      var n := |chain| - 1;
      var front := chain[..n];
      assert chain == front + [chain[n]];
      NewOfOneMore(front, chain[n], ledger, commits);
      if j <= n {
        SliceIsWhatIsNew(front, ledger, commits, i, j);
      } else if i <= n {
        SliceIsWhatIsNew(front, ledger, commits, i, n);
        assert chain[i..j] == front[i..n] + [chain[n]];
      } else {
        SliceIsWhatIsNew(front, ledger, commits, n, n);
      }
    }
  }

  lemma NothingIsNew(ledger: seq<Row>, commits: Store)
    ensures NewCommits([], ledger, commits) == []
  {
  }

  lemma LinkedFront(pool: map<Hash, Commit>, front: seq<Hash>, last: Hash)
    requires Linked(pool, front + [last])
    ensures Linked(pool, front)
    ensures front != [] ==> last in pool && pool[last].parents != [] && pool[last].parents[0] == front[|front| - 1]
  {
    var chain := front + [last];
    assert chain[|front|] == last && (front != [] ==> chain[|front| - 1] == front[|front| - 1]);
    forall i | 0 < i < |front|
      ensures front[i] in pool && pool[front[i]].parents != [] && pool[front[i]].parents[0] == front[i - 1]
    {
      assert chain[i] == front[i] && chain[i - 1] == front[i - 1];
    }
  }

  /** What is new of a chain and is a chain itself is a slice of it. */
  lemma {:induction false} ChainOfNewIsASlice(pool: map<Hash, Commit>, chain: seq<Hash>, ledger: seq<Row>,
                                              commits: Store)
    returns (i: int, j: int)
    requires Linked(pool, chain) && Linked(pool, NewCommits(chain, ledger, commits))
    ensures OnlySliceIsNew(chain, ledger, commits, i, j)
  {
    hide Known, Linked, NewCommits;
    if chain == [] {
      return 0, 0;
    }
    var n := |chain| - 1;
    var front, last := chain[..n], chain[n];
    assert chain == front + [last];
    var new_ := NewCommits(front, ledger, commits);
    NewOfOneMore(front, last, ledger, commits);
    LinkedFront(pool, front, last);
    if Known(last, ledger, commits) {
      assert NewCommits(chain, ledger, commits) == new_;
      i, j := ChainOfNewIsASlice(pool, front, ledger, commits);
    } else {
      LinkedFront(pool, new_, last);
      i, j := ChainOfNewIsASlice(pool, front, ledger, commits);
      SliceIsWhatIsNew(front, ledger, commits, i, j);
      if new_ == [] {
        i, j := n, n + 1;
      } else {
        assert !Known(front[j - 1], ledger, commits) && front[j - 1] == front[n - 1];
        j := n + 1;
      }
    }
  }

  /** A second look at a guest finds what is new of what was new before. */
  lemma {:induction false} NewOfNew(guest: seq<Hash>, ledger: seq<Row>, g: Store, g': Store)
    requires Extends(g, g')
    ensures NewCommits(guest, ledger, g') == NewCommits(NewCommits(guest, ledger, g), ledger, g')
  {
    hide InLedger, NewCommits;
    if guest == [] {
      NothingIsNew(ledger, g);
      NothingIsNew(ledger, g');
    } else {
      var front, last := guest[..|guest| - 1], guest[|guest| - 1];
      assert guest == front + [last];
      NewOfNew(front, ledger, g, g');
      NewOfOneMore(front, last, ledger, g);
      NewOfOneMore(front, last, ledger, g');
      NewOfOneMore(NewCommits(front, ledger, g), last, ledger, g');
      if Known(last, ledger, g) {
        assert NewCommits(guest, ledger, g) == NewCommits(front, ledger, g);
      }
    }
  }

  /** The host after a stop with `part` of the pool imported. */
  ghost function Imported(a: State, pool: map<Hash, Commit>, part: set<Hash>): State {
    a.(commits := a.commits + map h | h in part && h in pool :: pool[h])
  }

  /** Every part of the pool can be what a stopped import leaves, and nothing else. */
  lemma AnyPartCanBeImported(a: State, pool: map<Hash, Commit>, chain: seq<Hash>, bound: bool, b: State)
    requires Agree(a.commits, pool) && chain != []
    ensures Landed(a, pool, chain, bound, Stopped, b) && b.ledger == a.ledger <==>
            exists part :: b == Imported(a, pool, part)
  {
    hide Published;
    if Landed(a, pool, chain, bound, Stopped, b) && b.ledger == a.ledger {
      assert PartImported(a, pool, b) by { OnlyTheImportLeavesTheLedger(a, pool, chain, bound, b); }
      assert b.commits == Imported(a, pool, b.commits.Keys).commits;
      assert b == Imported(a, pool, b.commits.Keys);
    }
  }

  lemma OnlyTheImportLeavesTheLedger(a: State, pool: map<Hash, Commit>, chain: seq<Hash>, bound: bool, b: State)
    requires Landed(a, pool, chain, bound, Stopped, b) && b.ledger == a.ledger && chain != []
    ensures PartImported(a, pool, b)
  {
    hide Published, PartImported;
    var s := Appended(a, pool, chain);
    assert |s.ledger| > |a.ledger|;
    if bound && Published(s, chain[|chain| - 1], Stopped, b) {
      PublishedLedger(s, chain[|chain| - 1], Stopped, b);
    }
  }

  /** The next land of the same guest, exactly: it is refused as no chain if and only
      if the part imported of the batch is more than a beginning and an end of it;
      when it goes through, it records the whole batch if and only if none of the
      batch had been imported. */
  lemma RelandAfterStoppedImport(a: State, pool: map<Hash, Commit>, guest: seq<Hash>, part: set<Hash>, bound: bool,
                                 c: State)
    requires Agree(a.commits, pool) && Linked(pool, NewCommits(guest, a.ledger, a.commits))
    requires forall h | h in guest :: h in pool
    ensures var chain, b := NewCommits(guest, a.ledger, a.commits), Imported(a, pool, part);
            && var left := NewCommits(guest, b.ledger, b.commits);
            && (Linked(pool, left) <==> exists i, j :: OnlySliceIsNew(chain, b.ledger, b.commits, i, j))
            && (Landed(b, pool, left, bound, Done, c) ==>
                  ((forall h | h in chain :: InLedger(c.ledger, h)) <==> forall h | h in chain :: h !in part))
  {
    hide Published, InLedger, OnlySliceIsNew;
    var chain, b := NewCommits(guest, a.ledger, a.commits), Imported(a, pool, part);
    var left := NewCommits(guest, b.ledger, b.commits);
    NewOfNew(guest, a.ledger, a.commits, b.commits);
    if i, j :| OnlySliceIsNew(chain, b.ledger, b.commits, i, j) {
      SliceIsWhatIsNew(chain, b.ledger, b.commits, i, j);
      SliceIsLinked(pool, chain, b.ledger, b.commits, i, j);
    }
    if Linked(pool, left) {
      var i, j := ChainOfNewIsASlice(pool, chain, b.ledger, b.commits);
    }
    if Landed(b, pool, left, bound, Done, c) {
      NewCommitsAre(guest, a.ledger, a.commits);
      NewCommitsAre(guest, b.ledger, b.commits);
      RelandRecords(b, pool, left, bound, c, chain, part);
    }
  }

  lemma SliceIsLinked(pool: map<Hash, Commit>, chain: seq<Hash>, ledger: seq<Row>, commits: Store, i: int, j: int)
    requires OnlySliceIsNew(chain, ledger, commits, i, j) && Linked(pool, chain)
    ensures Linked(pool, chain[i..j])
  {
  }

  lemma RelandRecords(b: State, pool: map<Hash, Commit>, left: seq<Hash>, bound: bool, c: State, chain: seq<Hash>,
                      part: set<Hash>)
    requires Agree(b.commits, pool) && Landed(b, pool, left, bound, Done, c)
    requires forall h | h in chain :: !InLedger(b.ledger, h) && (h in left <==> h !in part)
    ensures (forall h | h in chain :: InLedger(c.ledger, h)) <==> forall h | h in chain :: h !in part
  {
    hide Published;
    if left == [] {
      assert c == b;
    } else {
      LandedLedger(b, pool, left, bound, Done, c);
      forall h | h in chain && h in part ensures !InLedger(c.ledger, h) {
        forall r | r in c.ledger ensures r.commit != h {
          var n :| 0 <= n < |c.ledger| && c.ledger[n] == r;
          assert n < |b.ledger| ==> b.ledger[n] in b.ledger;
        }
      }
    }
  }

  /** Unlike the others, a commit that was imported is out of reach for good: see
      what `LandHost.Host.Operate` promises of a commit in the store and in no row. */
  lemma ImportedIsStranded(a: State, pool: map<Hash, Commit>, guest: seq<Hash>, part: set<Hash>, h: Hash)
    requires h in NewCommits(guest, a.ledger, a.commits) && h in part && h in pool
    ensures var b := Imported(a, pool, part); h in b.commits && !InLedger(b.ledger, h)
  {
    NewCommitsAre(guest, a.ledger, a.commits);
  }
}
