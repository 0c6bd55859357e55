# mgit: branch guard, land projection and control protocol, verified

mgit keeps task-tagged commits beside a git repository and runs agents in microVM
sandboxes whose commits are "landed" back on the host. This project models the parts
of it that carry the hard guarantees and proves what they promise, for all inputs and
all runs. `dafny verify dfyconfig.toml` checks everything.

What is modelled, and the main results:

* **Branch-scope guard** (`CommitGraph`, `RefNames`, `GuardSpec`, `BranchGuard`,
  `GuardCheck`, `GuardLaws`, `GuardTheorems`). The worklist walk finds exactly what is reachable and
  fails exactly when a commit on the way cannot be read. `Check` answers exactly when
  names resolve and commits can be read, and a ref is reported, in the group of exactly
  the commits it shares, if and only if it holds some but not all of the branch's own
  commits and not only pushed ones, "own" being a difference of ancestor sets.
* **Land projection** (`Worktree`, `LandModel`, `LandSpec`, `LandHost`, `LandRecovery`,
  `LandLoss`, `LandImport`). The host's stores are a state, every effect is a step, a stop
  may fall before any effect and inside a file write. Every run, of any lands, checks, native edits
  and native commits, moves the tip only to descendants and delivers only pending land
  rows on its lineage. Which versions of files a land can take away, when a check after any
  number of stops is refused, and that it otherwise ends where an uninterrupted one would
  have ended, are characterised exactly.
* **Control protocol** (`Frames`, `Requests`, `Echo`, `EchoReader`). Streams of requests read
  back as written, cut streams are errors, the exact-size echo is exact from 108 bytes up
  and is read back and accepted at the other end.
* **Texts and documents** (`MarkedBlock`, `Shell`, `Settings`, `LandReady`, `Routing`,
  `AgentEntry`, `FleetCeiling`). Upserts, quoting, settings merges, the land-ready gate,
  routing, the write/undo of the agent files, and the memory ceiling.

`Text`, `Unicode`, `Sorting` and `Wrappers` hold the library operations the rest uses.

## Where the code does less than its comments say

The model follows the code. Each of these is proved with its exact condition.

* A `Check` is meant to complete an interrupted projection. The writer removes a file
  before it rewrites it, a write may break off, and a retry refuses a tracked file that is
  missing or has a third version. So after a stop of a land or of a check, and after any
  number of stopped retries, the next check is refused if and only if the last stop fell
  inside the replacement of a file, after the removal of one both trees have or in a write
  that left neither version, left a file and a directory in each other's way, or came after
  a removal through a link had taken a file (`LandRecovery.RetriesConverge`). The check
  that follows every land rewrites every file too, so it can wedge a host with nothing left
  to do (`LandRecovery.QuietIsAnAttempt`).
  The printed remedy is enough (`LandRecovery.RemedyUnwedges`).
* A land is meant to overwrite no host work. The deletion pass removes a path only the old
  tip has even where the target has a link in the place of one of its directories, and the
  removal follows the link. A file that neither tree tracks can be taken away if and only
  if its name is that of such a path (`LandLoss.UntrackedIsLostIffSlippery`), and the land
  can be delivered all the same (`LandLoss.ALinkTakesAFile`). It needs a host that has
  moved the directory away, for with the old tree in place the land is refused
  (`Worktree.ClashIsRefused`).
* Any other land that turns a file into a directory or back is never delivered
  (`LandRecovery.ClashIsNeverDelivered`).
* A land that was stopped and gives way to another can block it, and can leave files behind
  that neither the old tip nor the other target has (`LandLoss.GivingWay`).
* Objects imported before an aborted land are called harmless. A later land takes every
  commit the host store has as old: it is refused as no chain if and only if the imported
  part of the batch is more than a beginning and an end of it, and it records the whole
  batch if and only if none of it had been imported
  (`LandImport.RelandAfterStoppedImport`); no later land ever records an imported commit
  (`LandHost.Host.Operate`).
* The marked-block upsert is idempotent if and only if the body has no marker or its
  first end marker follows its first begin marker; otherwise user text is lost or blocks
  pile up (`MarkedBlock.UpsertIsIdempotentIffWellMarked`).
* A branch's pushed commits are meant to be exempt. The branch and its remote-tracking
  ref have one identity if and only if the remote's name has no slash and the local name
  does not begin with `origin/`, `upstream/` or `refs/remotes/` (`RefNames.TwinIdentity`);
  otherwise the exemption is lost (`GuardTheorems.PushedBranchIsClean`).
* A settings file holding `null` panics each of the three merges
  (`Settings.FileMergesOnce`), and a merge keeps the user's document if and only if the
  touched nodes are absent or well-typed (`Settings.ClaudeKeepsIffFits` and its siblings).
* The root worktree `/` covers only `/` (`Routing.DirWithinIsAncestry`).
* Undoing the agent files is meant to leave nothing behind. It is exact if and only if
  `MGIT.md` does not lead to a file that can be written but not read and is changed, and no
  name that is got to is a dangling link past the three names (`AgentEntry.UndoIsExact`).
* A NUL in a ref file can hide a change from the gate (`LandReady.NulHidesAChange`): two
  stores look the same if and only if they are the same pieces between NULs
  (`LandReady.FingerprintSeesAlike`).

## Model

| member | source | states |
|---|---|---|
| CommitGraph.Walked | internal/branchguard/guard.go:221-241 | the walk succeeds iff every commit reachable from the roots outside `stop` can be read, and then holds exactly those commits; it terminates on every store |
| CommitGraph.Found | internal/store/git/merge.go:52-66 | a depth-first walk that ends when the ancestor is met: a yes means ancestry, a no means the whole history was read and it is not there, an error means something could not be read |
| CommitGraph.ReachAvoiding | internal/branchguard/guard.go:126-133 | stopping a walk at a parent-closed set is the same as subtracting that set from the ancestors |
| CommitGraph.ReachIsParentClosed | internal/branchguard/guard.go:126-129 | what a complete walk of the bases finds is closed under parents |
| GuardTheorems.WalkIsDifference | internal/branchguard/guard.go:126-133 | the branch's own set is ancestors(tip) minus ancestors(bases) |
| BranchGuard.ResolveBases | internal/branchguard/guard.go:193-209 | declared bases must all resolve, of the defaults at least one; names and tips are exactly the resolved ones |
| BranchGuard.SortedCommits | internal/branchguard/guard.go:245-261 | every commit once with its subject, strictly oldest first with ties by hash |
| GuardLaws.CommitsAreOldestFirst | internal/branchguard/guard.go:250-256 | the order in terms of times and hashes |
| GuardLaws.SubjectIs | internal/branchguard/guard.go:263-268 | the subject is the first line without the blanks around it |
| BranchGuard.CandidateRefs | internal/branchguard/refs.go:151-183 | exactly the candidates among the refs, in order; what counts and what the order is, is below |
| GuardLaws.IdentityIs | internal/branchguard/refs.go:198-214 | the identity of every name there is, by its shape: as it stands, or after origin/, upstream/ or refs/remotes/ and a remote, with or without refs/heads/ in front |
| GuardLaws.CandidateIs | internal/branchguard/refs.go:151-183 | a ref counts iff it holds a hash, its full name is a local or remote-tracking branch and no remote's HEAD, and it stands for neither the branch nor a base |
| GuardLaws.RemoteBranchCounts | internal/branchguard/refs.go:159-168 | a remote-tracking branch counts iff its name is that of neither the branch nor a base |
| GuardLaws.LocalBranchCounts | internal/branchguard/refs.go:159-168 | the same for a local branch |
| GuardLaws.NeverCounts | internal/branchguard/refs.go:159-165 | symbolic refs, a remote's HEAD, tags and notes never count |
| GuardLaws.DisplayedAs | internal/branchguard/refs.go:216-224 | a local branch is shown by its name, a remote-tracking one with its remote |
| GuardLaws.LocalCandidatesFirst | internal/branchguard/refs.go:176-181 | local branches come first, each kind in the order of names |
| GuardLaws.LocalBranchIs | internal/branchguard/guard.go:176-187 | which names are a local branch's, given short, in full, remote or not at all |
| GuardLaws.StringLessIs | internal/branchguard/refs.go:180-180 | byte order: a beginning, or the smaller character at the first difference |
| BranchGuard.PushedCommits | internal/branchguard/refs.go:91-118 | for a local branch what its own remote-tracking refs reach above the base, otherwise nothing; fails iff a commit there cannot be read |
| BranchGuard.SubsetOf | internal/branchguard/refs.go:122-129 | set inclusion |
| BranchGuard.SharedCommits | internal/branchguard/refs.go:133-146 | what the ref adds to the base intersected with the branch's own commits |
| BranchGuard.Signature | internal/branchguard/refs.go:227-234 | the sorted hashes joined with commas |
| BranchGuard.SignatureIsExact | internal/branchguard/refs.go:227-234 | two signatures are equal iff the commit sets are |
| BranchGuard.CommitFiles | internal/branchguard/files.go:34-66 | adds the paths a commit changes against its first parent, or every file of a root commit; fails iff the first parent cannot be read |
| GuardLaws.ChangedIs | internal/branchguard/files.go:34-66 | a path is changed iff the commit's tree and its first parent's differ there |
| BranchGuard.ChangedFiles | internal/branchguard/files.go:21-30 | the sorted duplicate-free list of paths some commit of the set changes |
| GuardCheck.GroupRefs | internal/branchguard/refs.go:34-56 | fails iff some candidate's walk fails; otherwise one group per distinct shared set, with the accused refs sharing exactly it in order, its commits and its changed paths |
| GuardCheck.InheritedFrom | internal/branchguard/refs.go:23-57 | the grouping over the candidate refs with the pushed exemption of a local branch |
| GuardCheck.Collect | internal/branchguard/refs.go:238-244 | the groups in order of discovery |
| GuardCheck.UnionFiles | internal/branchguard/refs.go:248-264 | the sorted duplicate-free union of the groups' paths |
| GuardCheck.InheritedHashes | internal/branchguard/override.go:62-70 | exactly the hashes named in some group |
| GuardCheck.FindOverride | internal/branchguard/override.go:27-43 | no waiver iff no own, non-inherited commit gives a reason; otherwise the reason of the greatest such commit by (time, hash) |
| GuardSpec.FirstReasonDecides | internal/branchguard/override.go:47-58 | a message gives the reason of its first trailer line with a non-blank one, and none iff it has no such line |
| GuardLaws.LineReasonIs | internal/branchguard/override.go:47-58 | a line gives a reason iff it is blanks, the trailer and that text with blanks around it |
| GuardLaws.ReasonOfMessage | internal/branchguard/override.go:45-58 | a message gives the reason of its first line of that shape, and none iff no line has it |
| GuardLaws.TrailerGivesItsText | internal/branchguard/override.go:50-56 | a blank trailer gives nothing, a trailer with text exactly the text |
| GuardCheck.Check | internal/branchguard/guard.go:117-145 | answers iff names resolve and the walked commits can be read; the answer is the verdict: groups, union of paths and waiver |
| GuardTheorems.ReportedIffIncriminating | internal/branchguard/refs.go:34-71 | a candidate ref is reported, in the group of exactly its shared commits, iff (anc(ref) and anc(tip)) minus anc(bases) is non-empty, a strict subset of the own set and not within the pushed set |
| GuardTheorems.GroupsPartitionTheAccused | internal/branchguard/refs.go:34-56 | groups have distinct commit sets and every name in a group belongs to an incriminating ref sharing exactly that set |
| GuardTheorems.CleanIffNobodyIncriminates | internal/branchguard/guard.go:106-108 | a branch is clean iff no candidate ref incriminates it |
| GuardTheorems.CleanByNames | internal/branchguard/guard.go:106-108 | the same over the names of the refs alone: hash refs that are branches by their full name and stand for neither the branch nor a base |
| GuardTheorems.UnsharedBranchIsClean | internal/branchguard/guard.go:21-25 | a branch whose own commits no other ref reaches is clean |
| GuardTheorems.ExemptionOnlyRemoves | internal/branchguard/refs.go:91-118 | what incriminates under a larger pushed set incriminates under a smaller one |
| GuardTheorems.LocalReportsAreRemoteReports | internal/branchguard/refs.go:84-95 | every ref a local check reports is reported, with the same commits, by the check of the remote-tracking ref |
| GuardTheorems.PushedBranchIsClean | internal/branchguard/guard.go:29-35 | a local branch equal to its own remote-tracking ref is clean when the remote's name has no slash and the local name is plain; with any other names, unless another ref counts as pushed, it is refused iff a candidate shares a strict non-empty part of it |
| GuardTheorems.TwinCountsAsPushed | internal/branchguard/refs.go:102-109 | the remote-tracking twin counts as the branch's pushed past iff the remote's name has no slash and the local name is plain |
| GuardTheorems.NoExemptionWithoutAPushedRef | internal/branchguard/refs.go:91-118 | when no remote-tracking ref has the branch's identity, the branch is refused iff a candidate shares a strict non-empty part of it |
| GuardTheorems.WaiverIsTheAuthors | internal/branchguard/override.go:20-26 | a waiver comes from the branch's own commits and from no commit named as inherited |
| RefNames.TwinIdentity | internal/branchguard/refs.go:198-214 | a local branch and its remote-tracking twin have one identity iff the remote's name has no slash and the local name does not begin with origin/, upstream/ or refs/remotes/ |
| LandModel.RunIsSafe | cmd/mgit-sandboxd/land_projection.go:88-185 | in every run the tip only moves to descendants, ledger rows change only from pending to delivered, and every delivered land commit is an ancestor of the tip |
| LandModel.DeliveredWasPending | internal/store/index/content_admission.go:159-192 | a land row delivered in a run was a pending land row in an earlier state of it |
| LandModel.OnlyASlipLosesAVersion | internal/store/git/merge_delivered.go:43-48 | a step of a land or check that changes or removes a file takes away a version some commit in the store records, or is a removal through a link of the target |
| Worktree.ResumesUnlessInside | internal/store/git/merge_delivered.go:98-133 | a half-written worktree passes the conflict scan again iff the stop did not fall inside the replacement of a file and nothing written is in the way of a tracked path; the latter can only be where a file of one tree is a directory of the other |
| Worktree.ResumesUnlessHit | internal/store/git/merge_delivered.go:98-133 | the same for everything a stop can leave: a file both trees have that a removal through a link took is in the way too |
| Worktree.WrittenHoldsUnlessHit | internal/store/git/merge_delivered.go:192-225 | after a finished projection the read-back fails iff a removal through a link took a file of the target; it never succeeds over a target with a file in conflict with a path only the old tip has |
| Worktree.ProjectedAgain | internal/store/git/worktree.go:328-367 | a projection taken up again ends in the very worktree the uninterrupted one would have ended in |
| Worktree.ClashIsRefused | internal/store/git/merge_delivered.go:98-133 | with the old tree in place, a target that turns a file into a directory or back is refused before anything is written |
| LandHost.Host.Acquire | internal/store/lock/guard.go:35-45 | the lock may only be asked for while this process does not hold it; when another holds it too long nothing has changed |
| LandHost.Host.IsAncestor | internal/store/git/merge.go:52-66 | both commits must be in the store; then as the walk above |
| LandHost.Host.Scan | internal/store/git/merge_delivered.go:98-133 | clear iff every path of either tree is valid, has no directory in its place and no file or link in the place of a parent, and is at the old tip's version, at the target's, or absent where one tree lacks it |
| Worktree.ValidPathIs | internal/store/git/worktree_fs.go:40-51 | a path may be used iff it is not empty, not absolute, and has no component .., .git or .mgit |
| Worktree.ParentsAre | internal/store/git/merge_delivered.go:143-163 | the directories of a path are what stands before one of its slashes |
| LandHost.Host.MakeParents | internal/store/git/worktree_fs.go:257-260 | the missing directories on the way to a file are made; a stop leaves some of them |
| LandHost.Host.WriteEntry | internal/store/git/worktree_fs.go:249-280 | the path is emptied, then filled with the target's entry; a stop leaves it untouched, empty, or torn with any content; a path that is obstructed or no blob is an error |
| Worktree.LinksAreNotTorn | internal/store/git/worktree_fs.go:266-279 | a link is there or not; only files are torn, and keep their mode |
| LandHost.Host.RemoveExtras | internal/store/git/worktree.go:355-366 | the files only the old tip has are removed; a directory in the place of one, or a file in the place of a directory of it, is an error |
| LandHost.Host.RemoveExtra | internal/store/git/worktree.go:360-363 | one removal: below a link of the target it takes nothing here, or a file or empty directory of the same name wherever the link leads |
| Worktree.BaseIs | internal/store/git/worktree.go:360-361 | the last component of a path, which a removal through a link keeps |
| LandHost.Host.Materialize | internal/store/git/worktree.go:328-367 | finished, the worktree is the target over the old one with the old tip's extra files gone and everything else kept, except for what removals through links took; stopped, every path but at most one is as before or as in the target or an extra file gone, and that one is missing or torn |
| LandHost.Host.FastForwardDelivered | internal/store/git/merge_delivered.go:49-138 | refuses divergence and conflict with nothing touched, each for its exact reason; otherwise writes the tree and moves the branch last |
| LandHost.Host.VerifyDelivered | internal/store/git/merge_delivered.go:192-225 | true iff the branch is at the tip, nothing is staged and every tracked file is as the tip has it |
| LandHost.Host.LineageRows | cmd/mgit-sandboxd/land_projection.go:136-148 | delivers exactly the pending land rows that are ancestors of the tip |
| LandHost.Host.Publish | cmd/mgit-sandboxd/land_projection.go:101-150 | the new state by outcome: done, stopped (under way or moved, ledger untouched), refused with nothing changed and its reason, unreadable before or after the projection, or moved and failed at the read-back, which is iff a removal through a link took a file of the target; when nothing from outside cuts it short it is stopped only where a file cannot be written or removed, and on a host where nothing stands in its way it is done and ends as intended |
| LandHost.Host.Check | cmd/mgit-sandboxd/land_projection.go:155-185 | a publication of the last ledger commit or the newer native tip, with the whole new state for every outcome; busy or unbound changes nothing; not cut short, with the history readable and nothing in the way, it is done |
| LandHost.Host.ImportObjects | internal/sandboxd/land/importer.go:34-45 | the store gains exactly the pool, or part of it when stopped |
| LandHost.Host.Persist | internal/sandboxd/land/lander.go:70-103 | import, then all pending rows at once, then publication in the worktree bound by then; a stop before the append leaves branch, worktree and ledger alone, an unbound worktree leaves the rows pending |
| LandHost.Host.Land | cmd/mgit-sandboxd/land_wiring.go:186-194 | the same under the lock, which the inner publication never asks for again; not cut short, with nothing in the way, it is done and every row is recorded as intended |
| LandHost.Host.LandTask | cmd/mgit-sandboxd/land_wiring.go:140-149 | refused as no chain iff the new commits are not linked; rows are appended for new commits only, and for all of them when done; the worktree is looked up for the land and again for the check; not cut short, with nothing in the way, both are done and the host is as one publication of the batch leaves it; with nothing new it is the check, and done always means that nothing is left to do |
| LandSpec.NewCommitsAre | internal/service/land_service.go:328-361 | a guest commit is new iff neither the ledger nor the host store has it |
| LandHost.Host.Operate | cmd/mgit-sandboxd/land_projection.go:88-185 | any sequence of lands, checks, native edits and commits, stopped anywhere, is a safe run; a commit the store has and no row records never gets a row from a land |
| LandSpec.DoneIsQuiet | cmd/mgit-sandboxd/land_projection.go:155-185 | a check that is done leaves the worktree at the tip, the tip at what a check would publish, and nothing pending on its lineage |
| LandSpec.DoneIsFinished | cmd/mgit-sandboxd/land_projection.go:101-150 | a publication that is done is the intended one except for what removals through links took, and exactly it where the target has no such link |
| LandSpec.ClearPublishes | cmd/mgit-sandboxd/land_projection.go:101-150 | where nothing stands in the way, every outcome but a stop is done and the intended end |
| LandSpec.FinishedIsDone | cmd/mgit-sandboxd/land_projection.go:101-150 | that end is one a publication can have |
| LandSpec.FinishedStaysFinished | cmd/mgit-sandboxd/land_wiring.go:140-149 | the check after a land finds nothing left to do |
| LandSpec.AmbiguousRowsRefuse | cmd/mgit-sandboxd/land_projection.go:106-108 | a row of unknown origin, without an admission, or of the host and not delivered refuses every publication with nothing changed; no other row does |
| LandRecovery.StopBlocksIffWedged | cmd/mgit-sandboxd/land_projection.go:101-150 | after one stop of any publication, by a land or a check, the next is blocked iff the stop fell inside the replacement of a file, what it wrote is in the way of a tracked path (only where the trees clash), or a removal through a link took a file |
| LandRecovery.RetriesConverge | cmd/mgit-sandboxd/land_projection.go:152-185 | after any number of stopped checks the next one meets a conflict iff the last stop wedged the host, and changes nothing; one that is done ends in the state of an uninterrupted publication, except for what removals through links took, and exactly in it without such links |
| LandRecovery.StoppedLandRecovers | cmd/mgit-sandboxd/land_wiring.go:174-188 | the same from a land that stopped, or found no worktree, after its append: done, the branch is at the landed commit and every row of the batch is delivered |
| LandRecovery.QuietIsAnAttempt | cmd/mgit-sandboxd/land_wiring.go:140-149 | a check with nothing left to do can be stopped with the same consequences, since it rewrites every file |
| LandRecovery.AnyCommonFileHasAGap | internal/store/git/worktree_fs.go:261-279 | the removal of any file in both trees is a step of the code, and after a stop there every check is refused |
| LandRecovery.AnyWriteCanTear | internal/store/git/worktree_fs.go:276-279 | the same for a write that breaks off and leaves neither version |
| LandRecovery.RemedyUnwedges | cmd/mgit-sandboxd/land_projection.go:193-214 | with the one file a stop fell into restored from the branch's commit, or moved away when that has none, nothing stands in the way of the next check, and its end is still the uninterrupted one's |
| LandRecovery.ClashIsNeverDelivered | internal/store/git/worktree.go:350-366 | a target with a file below a path where the old tip has a file it lacks, or a file that is no link where the old tip has a directory with a file it lacks, is never delivered, however often it is tried; the branch moves to it only when a removal through a link took that file |
| LandRecovery.SecondCheckChangesNothing | cmd/mgit-sandboxd/land_projection.go:155-185 | after a check that is done, another one changes nothing and is refused only for the lock or unreadable history |
| LandRecovery.NewerNativeTipIsKept | cmd/mgit-sandboxd/land_projection.go:174-182 | a check never moves the branch off a newer native tip, whatever its outcome |
| LandLoss.UntrackedIsLostIffSlippery | internal/store/git/worktree.go:355-366 | a publication can take away a file neither tree tracks iff the old tip has a file of that name which the target lacks below a path where the target has a link |
| LandLoss.ALinkTakesAFile | internal/store/git/worktree.go:350-366 | a run of the code's own steps in which such a land is delivered and an untracked file is gone |
| LandLoss.GivingWay | internal/store/git/merge_delivered.go:98-138 | a stopped land of one target followed by a land of another: the other is blocked iff a path is obstructed or a touched file is in neither its version nor the old tip's; its end differs exactly at the touched paths that neither the old tip nor it has |
| LandLoss.ForbiddenPathsStayOut | internal/store/git/worktree_fs.go:301-314 | whatever the guest's tree holds and wherever a land stops, no file with an absolute path or a component .., .git or .mgit in its path is written |
| LandImport.AnyPartCanBeImported | internal/sandboxd/land/importer.go:34-45 | what a stop before the append leaves is the host with some part of the pool imported, any part, and nothing else |
| LandImport.ChainOfNewIsASlice | internal/sandboxd/land/derive.go:67-97 | what is new of a chain and is a chain itself is a contiguous slice of it |
| LandImport.RelandAfterStoppedImport | internal/sandboxd/land/lander.go:12-19 | the next land of the guest is refused as no chain iff the imported part of the batch is more than a beginning and an end of it; when done, it records the whole batch iff none of the batch had been imported |
| LandImport.ImportedIsStranded | internal/service/land_service.go:337-357 | an imported commit of a stopped batch is in the store and in no row, which `LandHost.Host.Operate` keeps so for lands |
| Frames.PrefixedRoundTrip | internal/controlproto/controlproto.go:538-563 | a message within the cap is read back whole whatever follows, one over the cap never is |
| Frames.ParsedWasPrefixed | internal/controlproto/controlproto.go:549-563 | what is read is within the cap and is what was written |
| Frames.StrictPrefixIsShort | internal/controlproto/controlproto.go:549-563 | no strict prefix of a message is a message |
| Frames.BigEndianIs | internal/controlproto/controlproto.go:538-547 | the four length bytes stand for the length, most significant first |
| Requests.Validate | internal/controlproto/controlproto.go:323-392 | accepts iff the kind is known and the request carries exactly its own kind's payload within bounds, none for list |
| Requests.AcceptedByKind | internal/controlproto/controlproto.go:323-392 | accepted iff a list request without a payload, or exactly the kind's own payload within these numbers |
| Requests.FieldTypeIs | internal/controlproto/controlproto.go:323-344 | the tag under which each payload travels |
| Requests.KindsAreDistinct | internal/controlproto/controlproto.go:33-67 | no two kinds share a tag |
| Requests.FrameLayout | internal/controlproto/controlproto.go:504-519 | a frame is the kind, the length and the payload |
| Requests.Conn.WriteRequest | internal/controlproto/controlproto.go:285-294 | appends one frame iff the payload is within the cap, otherwise nothing |
| Requests.Conn.ReadRequest | internal/controlproto/controlproto.go:299-318 | takes one frame off and yields the accepted request, an end or an error; a payload over the cap is never taken |
| Requests.StreamRoundTrip | internal/controlproto/controlproto.go:285-318 | any list of sendable requests written back to back is read back as the same list |
| Requests.CutStreamIsAnError | internal/controlproto/controlproto.go:521-535 | a stream cut inside its last frame is an error, not a shorter list |
| Requests.AcceptedIsFramed | internal/controlproto/controlproto.go:299-318 | an accepted request is acceptable and is the decoding of exactly one frame under the cap |
| Echo.DigitsReadBack | internal/controlproto/echo.go:63-67 | the printed number reads as the number, without a leading zero |
| Echo.BuildsFrom108 | internal/controlproto/echo.go:77-88 | an echo can be built iff at least 108 bytes are asked for |
| Echo.BuiltIsExact | internal/controlproto/echo.go:69-88 | a built echo encodes to exactly the bytes asked for and verifies |
| Echo.AcceptedExactly | internal/controlproto/echo.go:93-108 | an answer verifies iff its digest is that of its fill and the encoded fill takes exactly the bytes the envelope leaves |
| Echo.TruncationIsRejected | internal/controlproto/echo.go:90-108 | no truncation of an accepted answer verifies, with any digest |
| Echo.EchoCrossesTheWireUpToTheCap | internal/controlproto/controlproto.go:469-485 | a built echo is sent iff it is at most the cap, and then read back byte for byte |
| EchoReader.AnswerReadsBack | internal/controlproto/echo.go:63-67 | a reader of UTF-8 and JSON that knows nothing of the writer reads back exactly the answer written, for every answer |
| EchoReader.EscapeReads | internal/controlproto/echo.go:69-75 | every character is read back from its escape |
| EchoReader.EscapedIffNeeded | internal/controlproto/echo.go:69-75 | what is escaped, and that none of it is ever in the text |
| EchoReader.PeerAcceptsTheEcho | internal/controlproto/echo.go:69-108 | from 108 bytes up to the cap the peer reads an answer of exactly the bytes asked for and accepts it |
| MarkedBlock.UpsertIsIdempotentIffWellMarked | internal/agentadapter/markers.go:14-25 | a second upsert equals a single one iff the body has no marker or its first end marker follows its first begin marker |
| MarkedBlock.SecondUpsertReplaces | internal/agentadapter/markers.go:14-25 | on well-marked bodies the second upsert replaces exactly the first one's block |
| MarkedBlock.DanglingBeginLosesText | internal/agentadapter/markers.go:15-20 | with a begin marker and no end marker the second upsert drops the user's text after that marker |
| MarkedBlock.EarlyEndGrows | internal/agentadapter/markers.go:15-24 | with an end marker not after a begin marker every upsert makes the file longer |
| MarkedBlock.MarkersInUseAreGood | internal/agentadapter/claudemd.go:11-14 | the markers in use meet the conditions above |
| Shell.QuotingRoundTrips | internal/agentadapter/shims.go:62-66 | each quoting function turns any string into text that lexes to that one word |
| Shell.ShellWordIs | cmd/mgit/sandbox_base.go:209-218 | a word of letters, digits and certain marks is printed as it is, any other is quoted |
| Shell.RewrittenCommandLexes | internal/agentadapter/claude.go:80-86 | a rewritten command lexes to mgit run -- bash -lc and the command |
| Shell.MkdirFix | cmd/mgit/sandbox_base.go:197-218 | the printed command lexes to mkdir -p and exactly the directories |
| Settings.Document.EnsureItem | internal/agentadapter/claude.go:133-181 | scan, append unless present, and replacement of wrong-typed nodes |
| Settings.Document.MergeClaudeSettings | internal/agentadapter/claude.go:131-160 | the hook entry and the allow rule are each appended once, after the user's own |
| Settings.Document.MergeCodexHooks | internal/agentadapter/codex.go:85-109 | the same for the Codex hook entry |
| Settings.Document.MergeCursorHooks | internal/agentadapter/cursor.go:133-152 | the version is set and the hook entry appended once |
| Settings.ClaudeMergesOnce | internal/agentadapter/claude.go:111-145 | afterwards the hook and the rule are present, and merging again changes nothing, for every document |
| Settings.CodexMergesOnce | internal/agentadapter/codex.go:82-109 | the same for the Codex hook |
| Settings.CursorMergesOnce | internal/agentadapter/cursor.go:129-152 | the same for the Cursor hook and its schema version |
| Settings.ClaudeAdds | internal/agentadapter/claude.go:131-170 | the list is the user's own plus one Bash entry that runs the command, or as it was iff an entry runs it already; the rule likewise |
| Settings.CodexAdds | internal/agentadapter/codex.go:85-109 | the same for the Codex entry |
| Settings.CursorAdds | internal/agentadapter/cursor.go:133-152 | the same for the Cursor entry |
| Settings.ClaudeKeepsIffFits | internal/agentadapter/claude.go:111-181 | no key is lost and lists only grow at the end iff the touched nodes are absent or well-typed |
| Settings.CodexKeepsIffFits | internal/agentadapter/codex.go:82-109 | the same for the Codex document |
| Settings.CursorKeepsIffFits | internal/agentadapter/cursor.go:129-152 | the same for the Cursor document, whose version must be absent or 1 |
| Settings.FileMergesOnce | internal/agentadapter/claude.go:115-129 | for each of the three tools the file merges iff it is empty or an object, panics iff it is null, and merging twice is merging once |
| LandReady.StoreFingerprint | cmd/mgit-guest/landready.go:56-86 | the hash of paths and contents in path order, or the empty string for no store |
| LandReady.SerialIsInjective | cmd/mgit-guest/landready.go:70-81 | without NULs the bytes fed to the hash determine paths and contents |
| LandReady.FingerprintIsExact | cmd/mgit-guest/landready.go:53-86 | fingerprints of NUL-free stores are equal iff the stores are, for a collision-free hash |
| LandReady.FingerprintSeesPieces | cmd/mgit-guest/landready.go:70-81 | with NULs or without, two stores look the same iff their paths and contents, cut at every NUL, are the same pieces in the same order |
| LandReady.FingerprintSeesAlike | cmd/mgit-guest/landready.go:53-86 | for any two stores, the empty one included, fingerprints are equal iff the stores fall into the same pieces |
| LandReady.NulHidesAChange | cmd/mgit-guest/landready.go:70-81 | any two files can be hidden in the NUL-holding content of one |
| LandReady.Gate.Changed | cmd/mgit-guest/landready.go:40-51 | a look never signals without a change; for a collision-free hash it signals iff the stores do not fall into the same pieces, which without NULs is iff they differ |
| LandReady.Watch | cmd/mgit-guest/landready.go:33-51 | the same of each look and the look before, over any history of looks |
| Routing.SandboxForDir | cmd/mgit/run.go:184-201 | nothing iff no routable worktree, cleaned, covers the directory; otherwise the first sandbox of the innermost covering worktree |
| Routing.RoutableIs | cmd/mgit/run.go:208-215 | every sandbox that is neither landed nor destroyed can take a command |
| Routing.CoversAreNested | cmd/mgit/run.go:218-223 | worktrees covering one directory are nested |
| Routing.ChoiceIgnoresOrder | cmd/mgit/run.go:180-201 | the chosen worktree is the same for every order of the list |
| Routing.DirWithinIsAncestry | cmd/mgit/run.go:217-223 | on cleaned paths the string test is directory ancestry, except that the root covers only itself |
| AgentEntry.Root.AddPointerLine | cmd/mgit/agent_entry.go:51-75 | what the name leads to, through links, gains the line unless it has it; errors on unreadable nodes, and on writes that fail or break off |
| AgentEntry.Root.WriteAgentEntry | cmd/mgit/agent_entry.go:29-47 | the whole disk afterwards, ending at the first error, and whether there was one |
| AgentEntry.Root.Undo | cmd/mgit/agent_entry.go:112-125 | each name in turn is removed, rewritten or left alone according to how it was saved |
| AgentEntry.Root.FailedInit | cmd/mgit/init_cmd.go:54-71 | save, write and undo leave the whole disk as it was iff it is recoverable, as below |
| AgentEntry.UndoIsExact | cmd/mgit/agent_entry.go:77-126 | undoing is exact, whichever write of the entry breaks off, iff MGIT.md does not lead to a file that can be written but not read and is changed, and no name that is got to is a dangling link to a path past the three names where a file can be made |
| AgentEntry.ADanglingLinkLeavesAFile | cmd/mgit/agent_entry.go:84-104 | a dangling CLAUDE.md: the file made at its end stays |
| AgentEntry.ALinkToAnotherNameIsTakenBack | cmd/mgit/agent_entry.go:84-104 | a CLAUDE.md that leads to a missing AGENTS.md is taken back, since that name is undone |
| AgentEntry.PointedPoints | cmd/mgit/agent_entry.go:49-75 | the line is there afterwards, nothing but what the name leads to is touched, and an error changes nothing |
| AgentEntry.LastLineStaysAsItIs | cmd/mgit/agent_entry.go:61-69 | a file that ended its last line with a newline still does, one that did not does not, a new one does |
| AgentEntry.EnteringKeepsTheBeginning | cmd/mgit/agent_entry.go:26-47 | what a file held stays its beginning, except for the one MGIT.md leads to |
| AgentEntry.EnteringTwiceIsOnce | cmd/mgit/agent_entry.go:26-47 | writing the entry twice is writing it once, from every starting state, however the names lead to one another |
| AgentEntry.EntryIsThere | cmd/mgit/agent_entry.go:26-47 | after an entry without an error both instruction files have their line, unless HYPERSWE.md exists, and MGIT.md has its text, unless it leads to one of them |
| FleetCeiling.CeilingFromPolicy | cmd/mgit-sandboxd/ceiling_wiring.go:159-185 | the clamped share of the host, between 1 and the 32-bit maximum, without 64-bit overflow; fails iff the percentage or the probe is unusable |
| FleetCeiling.ResolveFleetCeiling | cmd/mgit-sandboxd/ceiling_wiring.go:125-153 | 0 iff there is no positive override and the percentage is 0; the value and source in every case |
| FleetCeiling.PolicyCeilingIsMonotone | cmd/mgit-sandboxd/ceiling_wiring.go:170-184 | a larger reading in bytes or a larger percentage never lowers the ceiling, through rounding and the 32-bit clamp |

## Assumptions

* Resolving a revision name, HEAD and the reference list are data of the repository; git
  keeps one reference per name. Trees are maps from clean slash-separated paths to mode
  and blob.
* The SQLite ledger is a sequence in position order whose transactions are atomic, moving
  a branch reference is one step, and a native operation only adds commits on top of the
  tip. Files are not edited by the host while a land or a check holds the lock.
* One removal, one directory and one object import are single effects; a file write may
  break off and leave any content. An I/O error is a stop, and a walk that meets an
  unreadable commit fails. No path of a tree is a directory of another path of it.
* Nothing else happens on the host between looking up which guest commits are new and taking
  the lock for their land.
* The writes that undo the agent files do not break off, and no name among them leads to
  `HYPERSWE.md`.
* Objects are content-addressed: a hash stands for one commit.
* JSON encoding and strict decoding of requests undo each other. A digest is 64
  hexadecimal digits; that no two inputs share a hash is assumed only where stated.
* Strings are sequences of characters; invalid UTF-8 does not occur.

## Left out

- LandHost.Host.ImportObjects: the trees and blobs of a commit come with it, although they are objects of their own; which commits count as new depends on the commit objects alone.
- LandHost.Host.LandTask: the guest's history is given parent first; decoding, attestation and the ordering of the pool happen before it.
- LandHost.Host.Check: resolving the task's native worktree is one input, and the wording of refusals is not modelled.
- LandHost.Host.Scan: paths are taken as clean, and a path that cannot be read is refused like a conflict.
- LandRecovery.RemedyUnwedges: that the branch's commit is admitted as a recovery checkpoint is taken as given.
- Requests.Validate: the validators of launch options, exec requests and export requests live in another package and enter as one predicate on the payload.
- Requests.StreamRoundTrip: options that this package does not look into are carried as one opaque text.
- Settings.ClaudeKeepsIffFits: numbers are opaque tokens, so the rounding of large integers by the decoder is not modelled.
- EchoReader.AnswerReadsBack: blanks between tokens, numbers that are no integers and surrogate pairs, none of which the writer puts out, are not read.
- AgentEntry.UndoIsExact: a link is given with the path it finally leads to, and permission bits other than readable and writable are not modelled.
- LandHost.Host.RemoveExtra: where a link leads is left open, and files outside the worktree, which a removal through a link can also take, are not part of the state.
- Survey, rendering of refusals, the CLI commands, VM backends, vsock, egress, image and base-cache management: user interface, foreign calls and I/O.
- The count dimension of the fleet ceiling and the permission decisions of the hooks: simple case splits.
