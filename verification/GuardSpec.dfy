/** What the branch-scope guard means, independent of how it walks and groups. */
module GuardSpec {
  import opened CommitGraph
  import opened RefNames
  import Sorting
  import Text
  import opened Wrappers

  datatype RefKind = HashRef | SymbolicRef
  datatype Ref = Ref(name: string, kind: RefKind, hash: Hash)

  /** A repository as the guard sees it. `head` is what HEAD resolves to and
      `revisions` is what a revision name resolves to. */
  datatype Repo = Repo(commits: Store, refs: seq<Ref>, head: Option<Ref>, revisions: map<string, Hash>)

  /** A repository has one reference per name. */
  ghost predicate OneRefPerName(repo: Repo) {
    forall i, j | 0 <= i < j < |repo.refs| :: repo.refs[i].name != repo.refs[j].name
  }

  datatype Options = Options(branch: string, bases: seq<string>)

  datatype CommitLine = CommitLine(hash: Hash, subject: string)
  datatype Inherited = Inherited(refs: seq<string>, commits: seq<CommitLine>, files: seq<string>)
  datatype Waiver = NoWaiver | Waiver(reason: string, commit: CommitLine)
  datatype Result = Result(branch: string, bases: seq<string>, inherited: seq<Inherited>, files: seq<string>,
    waiver: Waiver)

  datatype Candidate = Candidate(display: string, remote: bool, hash: Hash)
  datatype Stamp = Stamp(time: int, hash: Hash)

  const DEFAULT_BASES := ["main", "origin/main"]
  const OVERRIDE_TRAILER := "Branch-Scope-Override:"

  // ----- names -----

  function ResolveBranch(repo: Repo, name: string): Option<(string, Hash)> {
    if name == "" then
      if repo.head.Some? then Some((ShortRefName(repo.head.value.name), repo.head.value.hash)) else None
    else if name in repo.revisions then Some((ShortRefName(name), repo.revisions[name]))
    else None
  }

  predicate IsLocalBranch(repo: Repo, name: string) {
    if name == "" then repo.head.Some? && HEADS <= repo.head.value.name
    else if REMOTES <= name then false
    else exists r | r in repo.refs :: r.name == HEADS + TrimPrefix(name, HEADS)
  }

  ghost function Resolvable(repo: Repo, names: seq<string>): seq<string> {
    if names == [] then []
    else Resolvable(repo, names[..|names| - 1])
         + if names[|names| - 1] in repo.revisions then [names[|names| - 1]] else []
  }

  /** Declared bases must all resolve; of the defaults at least one must. */
  ghost predicate BasesResolve(repo: Repo, declared: seq<string>) {
    if declared == [] then Resolvable(repo, DEFAULT_BASES) != []
    else forall n | n in declared :: n in repo.revisions
  }

  ghost function BaseNames(repo: Repo, declared: seq<string>): seq<string> {
    if declared == [] then Resolvable(repo, DEFAULT_BASES) else declared
  }

  ghost function TipsOf(repo: Repo, names: seq<string>): set<Hash> {
    set n | n in names && n in repo.revisions :: repo.revisions[n]
  }

  ghost function BaseTips(repo: Repo, declared: seq<string>): set<Hash> {
    TipsOf(repo, BaseNames(repo, declared))
  }

  ghost function Identities(names: seq<string>): set<string> {
    set n | n in names :: ShortRefName(n)
  }

  predicate IsCandidate(r: Ref, excluded: set<string>) {
    && r.kind == HashRef
    && !(|r.name| >= 5 && r.name[|r.name| - 5..] == "/HEAD")
    && (HEADS <= r.name || REMOTES <= r.name)
    && ShortRefName(r.name) !in excluded
  }

  function AsCandidate(r: Ref): Candidate {
    Candidate(DisplayRefName(r.name), IsRemote(r.name), r.hash)
  }

  predicate IsPushed(r: Ref, name: string) {
    r.kind == HashRef && REMOTES <= r.name && ShortRefName(r.name) == name
  }

  /** The tips of the branch's own remote-tracking refs; only a local branch has a pushed past. */
  ghost function PushedTips(repo: Repo, name: string, local: bool): set<Hash> {
    if local then set r | r in repo.refs && IsPushed(r, name) :: r.hash else {}
  }

  // ----- orders -----

  /** Local names first, then by name. Names are unique, so the hash never decides. */
  predicate CandidateLess(a: Candidate, b: Candidate) {
    if a.remote != b.remote then !a.remote
    else if a.display != b.display then Sorting.StringLess(a.display, b.display)
    else Sorting.StringLess(a.hash, b.hash)
  }

  /** Oldest first, ties broken by hash. */
  predicate StampLess(a: Stamp, b: Stamp) {
    if a.time != b.time then a.time < b.time else Sorting.StringLess(a.hash, b.hash)
  }

  lemma CandidateTotal(a: Candidate, b: Candidate)
    ensures !CandidateLess(a, a)
    ensures CandidateLess(a, b) || a == b || CandidateLess(b, a)
  {
    Sorting.StringLessTotal(a.display, b.display);
    Sorting.StringLessTotal(a.hash, b.hash);
  }

  lemma CandidateTransitive(a: Candidate, b: Candidate, c: Candidate)
    requires CandidateLess(a, b) && CandidateLess(b, c)
    ensures CandidateLess(a, c)
  {
    if a.remote == b.remote == c.remote {
      if a.display == b.display && b.display == c.display {
        Sorting.StringLessTransitive(a.hash, b.hash, c.hash);
      } else if a.display != b.display && b.display != c.display {
        Sorting.StringLessTransitive(a.display, b.display, c.display);
        Sorting.StringLessTotal(c.display, a.display);
        Sorting.StringLessTotal(a.display, b.display);
      }
    }
  }

  lemma CandidateOrder()
    ensures Sorting.StrictOrder(CandidateLess)
  {
    forall a, b { CandidateTotal(a, b); }
    forall a, b, c | CandidateLess(a, b) && CandidateLess(b, c) { CandidateTransitive(a, b, c); }
  }

  lemma StampOrder()
    ensures Sorting.StrictOrder(StampLess)
  {
    Sorting.StringOrder();
  }

  // ----- commit sets -----

  function Subject(message: string): string {
    var i := Text.Index(message, "\n");
    Text.TrimSpace(if i >= 0 then message[..i] else message)
  }

  /** `out` is the commits of `s`, oldest first, each with its subject. */
  ghost predicate ListsCommits(g: map<Hash, Commit>, s: set<Hash>, out: seq<CommitLine>)
    requires s <= g.Keys
  {
    && (forall i | 0 <= i < |out| :: out[i].hash in s && out[i].subject == Subject(g[out[i].hash].message))
    && (forall h | h in s :: exists i :: 0 <= i < |out| && out[i].hash == h)
    && (forall i, j | 0 <= i < j < |out| ::
          StampLess(Stamp(g[out[i].hash].time, out[i].hash), Stamp(g[out[j].hash].time, out[j].hash)))
  }

  ghost function DiffPaths(before: Tree, after: Tree): set<string> {
    set p | p in before.Keys + after.Keys && !(p in before && p in after && before[p] == after[p])
  }

  /** The paths one commit changes against its first parent; a root commit
      changes every file it holds. */
  ghost function ChangedBy(g: Store, c: Commit): set<string> {
    if c.parents == [] then set p | p in c.tree && c.tree[p].mode != Submodule
    else if c.parents[0] in g then DiffPaths(g[c.parents[0]].tree, c.tree)
    else {}
  }

  ghost function ChangedByAny(g: Store, s: set<Hash>): set<string> {
    set h, p | h in s && h in g && p in ChangedBy(g, g[h]) :: p
  }

  /** `sig` is the sorted hashes of `s`, joined with commas. */
  ghost predicate IsSignature(sig: string, s: set<Hash>) {
    exists l: seq<string> :: Sorting.Lists<string>(Sorting.StringLess, l, s) && sig == Text.Join(l, ",")
  }

  // ----- the verdict -----

  /** One check: the store, what the bases reach, what the branch adds, and what
      the branch has already pushed. */
  datatype Case = Case(g: Store, stop: set<Hash>, own: set<Hash>, pushed: set<Hash>)

  ghost function Shared(k: Case, c: Candidate): set<Hash> {
    Reach(k.g, {c.hash}, k.stop) * k.own
  }

  ghost predicate Accused(k: Case, c: Candidate) {
    0 < |Shared(k, c)| < |k.own| && !(Shared(k, c) <= k.pushed)
  }

  /** The names of the accused refs that share exactly `s`, in order. */
  ghost function Sharing(k: Case, cs: seq<Candidate>, s: set<Hash>): seq<string> {
    if cs == [] then [] else
      var last := cs[|cs| - 1];
      Sharing(k, cs[..|cs| - 1], s) + if Accused(k, last) && Shared(k, last) == s then [last.display] else []
  }

  /** One group: the accused refs that share exactly `s`, with the commits of
      `s` and the paths those change. */
  ghost predicate IsGroup(k: Case, cs: seq<Candidate>, s: set<Hash>, group: Inherited) {
    && s <= k.g.Keys
    && group.refs == Sharing(k, cs, s) != []
    && ListsCommits(k.g, s, group.commits)
    && Sorting.Lists<string>(Sorting.StringLess, group.files, ChangedByAny(k.g, s))
  }

  ghost predicate Covers(k: Case, cs: seq<Candidate>, sets: seq<set<Hash>>) {
    forall c | c in cs && Accused(k, c) :: Shared(k, c) in sets
  }

  /** `out` groups the accused refs by equal shared set, one group per set. */
  ghost predicate Grouped(k: Case, cs: seq<Candidate>, sets: seq<set<Hash>>, out: seq<Inherited>) {
    && |sets| == |out|
    && Sorting.Distinct(sets)
    && Covers(k, cs, sets)
    && (forall i | 0 <= i < |out| :: IsGroup(k, cs, sets[i], out[i]))
  }

  ghost function Union(sets: seq<set<Hash>>): set<Hash> {
    set i, h | 0 <= i < |sets| && h in sets[i] :: h
  }

  /** The reason a line gives, or nothing when it is no trailer or a blank one. */
  function LineReason(line: string): string {
    var trimmed := Text.TrimSpace(line);
    if OVERRIDE_TRAILER <= trimmed then Text.TrimSpace(trimmed[|OVERRIDE_TRAILER|..]) else ""
  }

  /** The reason the lines of a message give: the first that is not blank. */
  function ReasonIn(lines: seq<string>): string {
    if lines == [] then ""
    else if LineReason(lines[0]) != "" then LineReason(lines[0])
    else ReasonIn(lines[1..])
  }

  /** The first line that gives a reason decides, and only a message without any
      such line gives none. */
  lemma {:induction false} FirstReasonDecides(lines: seq<string>)
    ensures ReasonIn(lines) == "" <==> forall l | l in lines :: LineReason(l) == ""
    ensures ReasonIn(lines) != "" ==>
              exists i :: 0 <= i < |lines| && ReasonIn(lines) == LineReason(lines[i])
                          && forall j | 0 <= j < i :: LineReason(lines[j]) == ""
  {
    hide Text.TrimSpace;
    if lines != [] {
      if LineReason(lines[0]) == "" {
        FirstReasonDecides(lines[1..]);
        assert lines == [lines[0]] + lines[1..];
        if ReasonIn(lines[1..]) != "" {
          var i :| 0 <= i < |lines[1..]| && ReasonIn(lines[1..]) == LineReason(lines[1..][i])
                   && forall j | 0 <= j < i :: LineReason(lines[1..][j]) == "";
          assert lines[i + 1] == lines[1..][i];
          forall j | 0 <= j < i + 1 ensures LineReason(lines[j]) == "" {
            if j > 0 { assert lines[j] == lines[1..][j - 1]; }
          }
        }
      } else {
        assert lines[0] in lines;
      }
    }
  }

  function OverrideReason(message: string): string {
    ReasonIn(Text.Split(message, '\n'))
  }

  /** The newest of `mine` that gives a reason decides; nothing else may. */
  ghost predicate IsWaiver(g: map<Hash, Commit>, mine: set<Hash>, w: Waiver)
    requires mine <= g.Keys
  {
    match w
    case NoWaiver => forall h | h in mine :: OverrideReason(g[h].message) == ""
    case Waiver(reason, line) =>
      && line.hash in mine
      && line.subject == Subject(g[line.hash].message)
      && reason == OverrideReason(g[line.hash].message) != ""
      && forall h | h in mine && h != line.hash && OverrideReason(g[h].message) != "" ::
           StampLess(Stamp(g[h].time, h), Stamp(g[line.hash].time, line.hash))
  }

  // ----- one whole check -----

  ghost function Excluded(repo: Repo, opts: Options, name: string): set<string> {
    Identities([name] + BaseNames(repo, opts.bases))
  }

  ghost function CaseOf(repo: Repo, opts: Options): Case
    requires ResolveBranch(repo, opts.branch).Some?
  {
    var (name, tip) := ResolveBranch(repo, opts.branch).value;
    var stop := Reach(repo.commits, BaseTips(repo, opts.bases), {});
    Case(repo.commits, stop, Reach(repo.commits, {tip}, stop),
         Reach(repo.commits, PushedTips(repo, name, IsLocalBranch(repo, opts.branch)), stop))
  }

  /** Names resolve and every commit the check has to walk can be read. */
  ghost predicate Judgeable(repo: Repo, opts: Options) {
    && ResolveBranch(repo, opts.branch).Some?
    && BasesResolve(repo, opts.bases)
    && var (name, tip) := ResolveBranch(repo, opts.branch).value;
    && var k := CaseOf(repo, opts);
    && Complete(k.g, BaseTips(repo, opts.bases), {})
    && Complete(k.g, {tip}, k.stop)
    && (k.own != {} ==>
          && Complete(k.g, PushedTips(repo, name, IsLocalBranch(repo, opts.branch)), k.stop)
          && forall r | r in repo.refs && IsCandidate(r, Excluded(repo, opts, name)) :: Complete(k.g, {r.hash}, k.stop))
  }

  ghost predicate CandidatesAre(repo: Repo, excluded: set<string>, cs: seq<Candidate>) {
    forall c :: c in cs <==> exists r | r in repo.refs :: IsCandidate(r, excluded) && c == AsCandidate(r)
  }

  /** The verdict `res`, where `cs` lists the candidate refs and `sets` the shared
      commit set of each reported group. */
  ghost predicate Verdict(repo: Repo, opts: Options, cs: seq<Candidate>, sets: seq<set<Hash>>, res: Result) {
    && ResolveBranch(repo, opts.branch).Some?
    && var (name, _) := ResolveBranch(repo, opts.branch).value;
    && var k := CaseOf(repo, opts);
    && res.branch == name
    && res.bases == BaseNames(repo, opts.bases)
    && (k.own != {} ==> CandidatesAre(repo, Excluded(repo, opts, name), cs) && Sorting.Increasing(CandidateLess, cs))
    && Grouped(k, cs, sets, res.inherited)
    && Sorting.Lists<string>(Sorting.StringLess, res.files, ChangedByAny(k.g, Union(sets)))
    && k.own <= k.g.Keys
    && IsWaiver(k.g, k.own - Union(sets), res.waiver)
  }
}
