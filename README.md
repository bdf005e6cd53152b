# A Dafny model of the TeamCity git plugin's merge, commit, iteration, agent and cleanup cores

This project models five parts of the TeamCity git plugin and proves properties of each.

1. **Server-side merge** (`merge.dfy`, module `MergeSupport`).
   - `merge` calls `doMerge` up to three times, until one call returns true.
   - Each `doMerge` does the following, in order:
     - fetches the destination branch;
     - asks an in-core merger whether the destination tip and the source revision merge cleanly;
     - builds a commit with exactly two parents: that tip, then the source revision;
     - pushes it with the tip as the expected old value;
     - maps the push status to true (OK, UP_TO_DATE) or false (anything else).
   - The remote is a map from ref names to commit ids, and the push is an atomic compare-and-swap.
   - A concurrent writer is a per-attempt ref value that lands on the remote after the fetch: before the push when the merge is clean, before the attempt returns when it is not.
   - What JGit decides is a field of an `Oracle` value: ref expansion, whether the source revision can be parsed and read, merge cleanliness, the result tree, a commit's author, and object hashing.
2. **Commit-patch builder** (`commit_patch.dfy`, module `CommitSupport`), as its tests state it.
   - A builder accumulates `createFile` and `deleteDirectory` edits.
   - `commit` applies them to the branch tip's tree and moves the branch with a compare-and-swap.
   - Created content has CRLF line endings converted to LF.
   - A missing branch is an error, unless the repository has no branches at all; then the branch is created.
   - `dispose` releases the builder.
   - Change collection is a set of added, changed and removed files between two trees, plus a history walk from one commit back to another.
3. **Direct submodule-aware tree iterator** (`tree_iterator.dfy`, module `SubmoduleIterator`).
   - A cursor that delegates `first`, `eof`, `next(delta)` and `back(delta)` to the tree iterator it wraps.
   - After every move it refreshes its view of the current submodule.
4. **Agent-side git command update process** (`update_process.dfy`, module `AgentUpdate`):
   - the clean-policy guard of `doClean` and its effects;
   - the `getGitPath` / `defaultGit` lookup of the git executable;
   - the sequential checks of `canRun`.
   - The file system is a predicate on paths.
   - The version that `git version` reports is a function of the command path.
5. **Mirror retention sweep** (`cleaner.dfy`, module `Cleaner`), as its tests state it.
   - The sweep removes mirror directories idle past the expiration timeout and keeps every other one.
   - Native garbage collection that does not run in place reduces a mirror holding more than 50 packs to one pack.
   - The sweep runs through a call wrapper.
   - The test set-up loops (garbage directories, pack copies) are methods with loops.

Two behaviours of `merge` are worth stating up front:

- `doMerge` returns false on a conflict (GitMergeSupport.java:77-79), and `merge` retries that exactly like a rejected push (:51-54). Each retry fetches again, so a conflict that another writer resolves in between is merged on the next attempt. With no other writer, a conflict persists and ends in the same "Merge failed" error as an exhausted retry (:55-56). `MergeSupport.MergeFollowsTrace`, `MergeSupport.ConflictFailsAfterThreeAttempts` and `MergeSupport.ConflictResolvedByWriterIsRetried` state this.
- A persistent conflict and three rejected pushes raise the same message, and so does the model.

## Model

| member | source | states |
|---|---|---|
| MergeSupport.PushResult | git-server/src/jetbrains/buildServer/buildTriggers/vcs/git/GitMergeSupport.java:110-117 | the push succeeds exactly when the remote ref still holds the expected old value or already holds the new id; on success only that ref moves to the new id, on failure the remote is unchanged and the status is a rejection |
| MergeSupport.Trace | git-server/src/jetbrains/buildServer/buildTriggers/vcs/git/GitMergeSupport.java:51-54 | the sequence of attempts `merge` makes, one entry per attempt |
| MergeSupport.ConflictMakesNoPush | git-server/src/jetbrains/buildServer/buildTriggers/vcs/git/GitMergeSupport.java:76-79 | an attempt whose merge is not clean returns false and inserts no object; it pushes nothing, so the remote changes only by the other writer's update, if one lands |
| MergeSupport.CleanAttemptShape | git-server/src/jetbrains/buildServer/buildTriggers/vcs/git/GitMergeSupport.java:70-117 | a clean attempt inserts exactly the two-parent merge commit, records the fetched tip, and pushes with that tip as expected value; it returns true exactly when the remote still held the tip or already held the commit, and the remote then moves to the commit |
| MergeSupport.UndisturbedCleanAttemptSucceeds | git-server/src/jetbrains/buildServer/buildTriggers/vcs/git/GitMergeSupport.java:70-115 | with no concurrent writer a clean attempt returns true and moves the destination ref to the merge commit |
| MergeSupport.AttemptTouchesOnlyDestination | git-server/src/jetbrains/buildServer/buildTriggers/vcs/git/GitMergeSupport.java:110-111 | an attempt never creates, removes or moves any ref other than the expanded destination ref |
| MergeSupport.AttemptsBounded | git-server/src/jetbrains/buildServer/buildTriggers/vcs/git/GitMergeSupport.java:49-54 | `merge` calls `doMerge` at least once and at most three times |
| MergeSupport.LoopFollowsTrace | git-server/src/jetbrains/buildServer/buildTriggers/vcs/git/GitMergeSupport.java:49-57 | from any attempt count, the loop stops at the first attempt that returns true or raises, and otherwise runs out the remaining attempts |
| MergeSupport.MergeFollowsTrace | git-server/src/jetbrains/buildServer/buildTriggers/vcs/git/GitMergeSupport.java:49-57 | every attempt but the last returned false; `merge` succeeds exactly when the last attempt returned true; an exception ends it at once; a last false attempt is the third one and ends in "Merge failed" |
| MergeSupport.ConflictFailsAfterThreeAttempts | git-server/src/jetbrains/buildServer/buildTriggers/vcs/git/GitMergeSupport.java:51-56 | with no other writer, a merge that conflicts is attempted three times and fails with "Merge failed", leaving the remote unchanged |
| MergeSupport.MissingDestinationFailsAtOnce | git-server/src/jetbrains/buildServer/buildTriggers/vcs/git/GitMergeSupport.java:57-74 | a destination ref the fetch does not find ends `merge` at the first attempt with that error, and nothing changes |
| MergeSupport.MissingSourceFailsAtOnce | git-server/src/jetbrains/buildServer/buildTriggers/vcs/git/GitMergeSupport.java:57-91 | a source revision that cannot be parsed or read from the mirror ends `merge` at the first attempt with that error, whatever the other writer does, and nothing is pushed or inserted |
| MergeSupport.UndisturbedCleanMergeSucceeds | git-server/src/jetbrains/buildServer/buildTriggers/vcs/git/GitMergeSupport.java:49-56 | a clean merge without a concurrent writer succeeds on the first attempt with the two-parent commit on the destination ref |
| MergeSupport.RaceIsRetriedOnNewTip | git-server/src/jetbrains/buildServer/buildTriggers/vcs/git/GitMergeSupport.java:51-54 | a push rejected because the ref moved is retried; the second attempt fetches the moved tip and lands a commit whose first parent is that tip |
| MergeSupport.ConflictResolvedByWriterIsRetried | git-server/src/jetbrains/buildServer/buildTriggers/vcs/git/GitMergeSupport.java:51-79 | a first attempt that conflicts is retried; when another writer has moved the destination to a tip that merges cleanly, the second attempt lands the two-parent commit on that tip |
| MergeSupport.RemoteRepository.Push | git-server/src/jetbrains/buildServer/buildTriggers/vcs/git/GitMergeSupport.java:110-112 | the remote's push is the compare-and-swap `PushResult` on its refs |
| MergeSupport.GitMergeSupport.DoMerge | git-server/src/jetbrains/buildServer/buildTriggers/vcs/git/GitMergeSupport.java:65-126 | one attempt: its result and new mirror, object store and remote are those of `Attempt` |
| MergeSupport.GitMergeSupport.Merge | git-server/src/jetbrains/buildServer/buildTriggers/vcs/git/GitMergeSupport.java:40-62 | the retry loop: its result, attempt count and final state are those of `MergeSpec` |
| CommitSupport.CrlfRoundTrip | git-tests/src/jetbrains/buildServer/buildTriggers/vcs/git/tests/GitCommitSupportTest.java:87-100 | text whose line breaks are all CR LF pairs (every LF follows a CR and every CR precedes an LF) comes back unchanged after being stored with LF endings and read with autoCrlf |
| CommitSupport.CanonicalRoundTrip | git-tests/src/jetbrains/buildServer/buildTriggers/vcs/git/tests/GitCommitSupportTest.java:96-100 | stored text without a CR LF pair, read with autoCrlf and committed again, is stored as it was |
| CommitSupport.ReaderKeepsExistingCrlf | git-tests/src/jetbrains/buildServer/buildTriggers/vcs/git/tests/GitCommitSupportTest.java:96-100 | the autoCrlf reader leaves an existing CR LF pair as it is and adds no second CR |
| CommitSupport.LineEndingExample | git-tests/src/jetbrains/buildServer/buildTriggers/vcs/git/tests/GitCommitSupportTest.java:89-100 | "a\r\nb\r\nc\r\n" is stored as "a\nb\nc\n" and read back with autoCrlf as "a\r\nb\r\nc\r\n" |
| CommitSupport.SiblingNotUnder | git-tests/src/jetbrains/buildServer/buildTriggers/vcs/git/tests/GitCommitSupportTest.java:145-146 | "dir/file" lies inside "dir" and "dir2/file" does not |
| CommitSupport.ApplyEdit | git-tests/src/jetbrains/buildServer/buildTriggers/vcs/git/tests/GitCommitSupportTest.java:142-155 | creating a file adds or replaces exactly that path with LF content; deleting a directory removes exactly the paths inside it; every other path keeps its content |
| CommitSupport.Diff | git-tests/src/jetbrains/buildServer/buildTriggers/vcs/git/tests/GitCommitSupportTest.java:159-161 | a change is reported exactly when a file was added, removed, or kept with different content |
| CommitSupport.DeleteDirectoryChanges | git-tests/src/jetbrains/buildServer/buildTriggers/vcs/git/tests/GitCommitSupportTest.java:152-161 | deleting a directory reports one removal for each file inside it and no other change |
| CommitSupport.DirectoryRemoveExample | git-tests/src/jetbrains/buildServer/buildTriggers/vcs/git/tests/GitCommitSupportTest.java:142-162 | deleting "dir" reports exactly the removal of "dir/file", and "dir2/file" stays |
| CommitSupport.CreateFileChanges | git-tests/src/jetbrains/buildServer/buildTriggers/vcs/git/tests/GitCommitSupportTest.java:70-82 | creating one file reports changes to that file only, and none exactly when the file already had that content |
| CommitSupport.Push | git-tests/src/jetbrains/buildServer/buildTriggers/vcs/git/tests/GitCommitSupportTest.java:166-230 | the branch moves to a fresh commit exactly when it still holds the expected tip; otherwise the state is unchanged and the error names the branch; the store stays valid |
| CommitSupport.CommitSpec | git-tests/src/jetbrains/buildServer/buildTriggers/vcs/git/tests/GitCommitSupportTest.java:67-83 | a commit keeps the repository state valid |
| CommitSupport.CommitToExistingBranch | git-tests/src/jetbrains/buildServer/buildTriggers/vcs/git/tests/GitCommitSupportTest.java:67-83 | a commit to an existing branch lands on its tip, holds the tip's tree with the patch applied, and the history between the two states is one modification with the given user name, description and the patch's changes |
| CommitSupport.SingleFileCommitExample | git-tests/src/jetbrains/buildServer/buildTriggers/vcs/git/tests/GitCommitSupportTest.java:67-83 | committing one new file as "user" / "Commit description" gives exactly one modification, reporting that file as added |
| CommitSupport.MissingBranchFails | git-tests/src/jetbrains/buildServer/buildTriggers/vcs/git/tests/GitCommitSupportTest.java:104-118 | a missing branch, when other branches exist, is an error whose message is "The '<branch>' destination branch doesn't exist", and nothing changes |
| CommitSupport.FirstCommitCreatesBranch | git-tests/src/jetbrains/buildServer/buildTriggers/vcs/git/tests/GitCommitSupportTest.java:121-138 | in a repository without branches the commit creates the branch, on a root commit holding the patch |
| CommitSupport.RacingCommitsOneFails | git-tests/src/jetbrains/buildServer/buildTriggers/vcs/git/tests/GitCommitSupportTest.java:166-230 | of two commits prepared on the same tip, the first push lands and the second is rejected without changing anything |
| CommitSupport.SequentialCommitsAreLinear | git-tests/src/jetbrains/buildServer/buildTriggers/vcs/git/tests/GitCommitSupportTest.java:226-230 | two commits one after the other both land, the second on the first, and the history holds both |
| CommitSupport.Repository.UpdateRef | git-tests/src/jetbrains/buildServer/buildTriggers/vcs/git/tests/GitCommitSupportTest.java:182-216 | the repository's ref update is the compare-and-swap `Push` on its state |
| CommitSupport.CommitPatchBuilder.CreateFile | git-tests/src/jetbrains/buildServer/buildTriggers/vcs/git/tests/GitCommitSupportTest.java:72 | the edit is appended to the builder's patch |
| CommitSupport.CommitPatchBuilder.DeleteDirectory | git-tests/src/jetbrains/buildServer/buildTriggers/vcs/git/tests/GitCommitSupportTest.java:153 | the edit is appended to the builder's patch |
| CommitSupport.CommitPatchBuilder.Commit | git-tests/src/jetbrains/buildServer/buildTriggers/vcs/git/tests/GitCommitSupportTest.java:70-74 | the result and the repository's new state are those of `CommitSpec` on the accumulated patch |
| CommitSupport.CommitPatchBuilder.Dispose | git-tests/src/jetbrains/buildServer/buildTriggers/vcs/git/tests/GitCommitSupportTest.java:194-215 | callable in any state, after a commit or a failed one; the builder is released and its patch dropped |
| SubmoduleIterator.NextThenBack | git-server/src/jetbrains/buildServer/buildTriggers/vcs/git/submodules/DirectSubmoduleAwareTreeIterator.java:69-80 | on the iterator, `next(d)` within range followed by `back(d)` restores the wrapped position, the current entry and the submodule state |
| SubmoduleIterator.BackThenNext | git-server/src/jetbrains/buildServer/buildTriggers/vcs/git/submodules/DirectSubmoduleAwareTreeIterator.java:69-80 | on the iterator, `back(d)` within range followed by `next(d)` restores the wrapped position, the current entry and the submodule state |
| SubmoduleIterator.DirectSubmoduleAwareTreeIterator.MovedToEntry | git-server/src/jetbrains/buildServer/buildTriggers/vcs/git/submodules/DirectSubmoduleAwareTreeIterator.java:69-80 | the submodule state is refreshed to that of the wrapped iterator's current entry |
| SubmoduleIterator.DirectSubmoduleAwareTreeIterator.First | git-server/src/jetbrains/buildServer/buildTriggers/vcs/git/submodules/DirectSubmoduleAwareTreeIterator.java:55-57 | answers exactly what the wrapped iterator's `first` answers and changes nothing |
| SubmoduleIterator.DirectSubmoduleAwareTreeIterator.Eof | git-server/src/jetbrains/buildServer/buildTriggers/vcs/git/submodules/DirectSubmoduleAwareTreeIterator.java:62-64 | answers exactly what the wrapped iterator's `eof` answers, true exactly when there is no current entry, and changes nothing |
| SubmoduleIterator.DirectSubmoduleAwareTreeIterator.Next | git-server/src/jetbrains/buildServer/buildTriggers/vcs/git/submodules/DirectSubmoduleAwareTreeIterator.java:69-72 | the wrapped iterator moves forward by exactly `delta`; the current entry is the wrapped iterator's entry there and the submodule state is that entry's |
| SubmoduleIterator.DirectSubmoduleAwareTreeIterator.Back | git-server/src/jetbrains/buildServer/buildTriggers/vcs/git/submodules/DirectSubmoduleAwareTreeIterator.java:77-80 | the wrapped iterator moves back by exactly `delta`; the current entry is the wrapped iterator's entry there and the submodule state is that entry's |
| AgentUpdate.ShouldClean | git-agent/src/jetbrains/buildServer/buildTriggers/vcs/git/agent/GitCommandUpdateProcess.java:177-178 | ALWAYS cleans, ON_BRANCH_CHANGE cleans exactly when the branch is not current, any other policy never cleans |
| AgentUpdate.UpdateProcess.DoClean | git-agent/src/jetbrains/buildServer/buildTriggers/vcs/git/agent/GitCommandUpdateProcess.java:176-182 | when the guard holds, one "Cleaning …" message is logged and one clean command runs; otherwise nothing is logged and nothing runs |
| AgentUpdate.FirstExistingIsFirst | git-agent/src/jetbrains/buildServer/buildTriggers/vcs/git/agent/GitCommandUpdateProcess.java:125-131 | the lookup yields the file of the earliest candidate directory holding the program, and nothing exactly when no candidate holds it |
| AgentUpdate.DefaultGit | git-agent/src/jetbrains/buildServer/buildTriggers/vcs/git/agent/GitCommandUpdateProcess.java:115-132 | the loop returns what the first-existing lookup over the platform's candidates and executable name yields |
| AgentUpdate.ConfiguredPathWins | git-agent/src/jetbrains/buildServer/buildTriggers/vcs/git/agent/GitCommandUpdateProcess.java:107-110 | with `system.git.executable.path` set, the path is that property, whatever the platform and whatever files exist |
| AgentUpdate.DefaultLookup | git-agent/src/jetbrains/buildServer/buildTriggers/vcs/git/agent/GitCommandUpdateProcess.java:107-131 | without the property a path is found exactly when some candidate directory holds the platform's executable |
| AgentUpdate.PlatformExample | git-agent/src/jetbrains/buildServer/buildTriggers/vcs/git/agent/GitCommandUpdateProcess.java:115-131 | on Windows, with git installed under the first candidate, the path is that directory's `git.exe` |
| AgentUpdate.OnlyUnixGitExample | git-agent/src/jetbrains/buildServer/buildTriggers/vcs/git/agent/GitCommandUpdateProcess.java:115-131 | with git only at "/usr/bin/git", the lookup finds it on Unix and finds nothing on Windows |
| AgentUpdate.NotConfiguredMessageNamesProperty | git-agent/src/jetbrains/buildServer/buildTriggers/vcs/git/agent/GitCommandUpdateProcess.java:87-91 | the message as written names `system.git.excecutable.path`, which differs from the property `getGitPath` reads (line 59); the corrected message names that property |
| AgentUpdate.CanRun | git-agent/src/jetbrains/buildServer/buildTriggers/vcs/git/agent/GitCommandUpdateProcess.java:87-101 | no error exactly when a path is found, `git version` runs and the version is at least the minimum; no path gives the not-configured error (with the corrected message); a failing `git version` gives the cannot-run error naming the path; a version below the minimum gives the unsupported error with that path and version |
| AgentUpdate.CanRunAsWritten | git-agent/src/jetbrains/buildServer/buildTriggers/vcs/git/agent/GitCommandUpdateProcess.java:87-101 | `canRun` as the code words it: with no path found, the not-configured error carries the message naming `system.git.excecutable.path` |
| AgentUpdate.CanRunCorrectsOnlyMessage | git-agent/src/jetbrains/buildServer/buildTriggers/vcs/git/agent/GitCommandUpdateProcess.java:87-101 | `canRun` as written and corrected agree whenever a path is found; with no path both report not-configured, the written message naming `system.git.excecutable.path` and the corrected one `system.git.executable.path` |
| Cleaner.Gc | git-tests/src/jetbrains/buildServer/buildTriggers/vcs/git/tests/CleanerTest.java:106-130 | compaction never adds packs and keeps the access time; native out-of-place compaction of more than 50 packs leaves one; otherwise the mirror is unchanged |
| Cleaner.SweepRemovalIgnoresMode | git-tests/src/jetbrains/buildServer/buildTriggers/vcs/git/tests/CleanerTest.java:68-100 | which mirrors survive is the same under JGit and native compaction |
| Cleaner.GcIdempotent | git-tests/src/jetbrains/buildServer/buildTriggers/vcs/git/tests/CleanerTest.java:127-130 | compacting a compacted mirror changes nothing |
| Cleaner.SweepIdempotent | git-tests/src/jetbrains/buildServer/buildTriggers/vcs/git/tests/CleanerTest.java:91-102 | a second sweep at the same moment leaves the mirrors directory as the first left it |
| Cleaner.GarbageNamesDistinct | git-tests/src/jetbrains/buildServer/buildTriggers/vcs/git/tests/CleanerTest.java:155-157 | the ten garbage directory names are pairwise different |
| Cleaner.WithGarbage | git-tests/src/jetbrains/buildServer/buildTriggers/vcs/git/tests/CleanerTest.java:153-158 | after the set-up the directory holds the old mirrors unchanged plus the ten garbage directories, new ones empty and accessed at set-up time |
| Cleaner.MirrorsDirectory.Run | git-tests/src/jetbrains/buildServer/buildTriggers/vcs/git/tests/CleanerTest.java:141-144 | the cleanup wrapper is called, and the mirrors directory ends as `Sweep` leaves it |
| Cleaner.MirrorsDirectory.RunSweep | git-tests/src/jetbrains/buildServer/buildTriggers/vcs/git/tests/CleanerTest.java:91-100 | the loop over the mirrors ends with the directory as `Sweep` leaves it |
| Cleaner.MirrorsDirectory.GenerateGarbage | git-tests/src/jetbrains/buildServer/buildTriggers/vcs/git/tests/CleanerTest.java:153-158 | the loop leaves the directory as `WithGarbage` describes |
| Cleaner.MirrorsDirectory.CopyPacks | git-tests/src/jetbrains/buildServer/buildTriggers/vcs/git/tests/CleanerTest.java:116-123 | the loop from 10 to 60 adds one pack named after each index to the mirror and changes nothing else |
| Cleaner.PackNamesDistinct | git-tests/src/jetbrains/buildServer/buildTriggers/vcs/git/tests/CleanerTest.java:120-122 | different indices give differently named copies |
| Cleaner.CopiesBelowCount | git-tests/src/jetbrains/buildServer/buildTriggers/vcs/git/tests/CleanerTest.java:120-122 | the copies for the indices from 10 below `n` are `n - 10` different packs |
| Cleaner.CopyOverwritesOriginal | git-tests/src/jetbrains/buildServer/buildTriggers/vcs/git/tests/CleanerTest.java:118-121 | the name the loop writes for index 37 is the name of the original pack |
| Cleaner.CopiesOfOriginalCount | git-tests/src/jetbrains/buildServer/buildTriggers/vcs/git/tests/CleanerTest.java:116-123 | the copy for index 37 has the original pack's name, so a mirror holding only that pack ends with 51 packs, 50 of them new |
| Cleaner.OnlyLiveMirrorSurvives | git-tests/src/jetbrains/buildServer/buildTriggers/vcs/git/tests/CleanerTest.java:68-100 | garbage made at one moment and a mirror accessed two timeouts later: the sweep leaves exactly that mirror, under either compaction mode |
| Cleaner.GarbageIsRemoved | git-tests/src/jetbrains/buildServer/buildTriggers/vcs/git/tests/CleanerTest.java:81-99 | every garbage directory of that scenario is gone after the sweep |
| Cleaner.NonInPlaceGcLeavesOnePack | git-tests/src/jetbrains/buildServer/buildTriggers/vcs/git/tests/CleanerTest.java:106-131 | a live mirror holding the original pack has 51 packs after the copies, more than 50, survives the sweep and ends with exactly one pack |

## Left out

- Network transport is not modelled: SSH, HTTP, TLS, `Transport`, `PushConnection` and the fetch. A fetch is "read the remote tip into the mirror"; a push is one atomic compare-and-swap.
- The per-mirror write lock (`synchronized`) is not modelled, and neither are the test's threads and latches. Concurrency appears only as a writer that lands between fetch and push, or as two sequential callers.
- JGit's three-way merger, `DirCache`, `ObjectInserter`, `RevWalk` and object hashing are uninterpreted `Oracle` functions; commit-support hashes are fresh counter ids.
- Wall-clock time (`new Date()`, the time zone of the committer identity, `Thread.sleep`) is not modelled: the committer is a name and e-mail, and time is a number.
- `getRef` short-name resolution is modelled as a lookup of the expanded ref name.
- A fetch that cannot find the destination ref (so `getRef` yields null), and a source revision that `ObjectId.fromString` cannot parse or the mirror does not hold, are modelled as exceptions that end `merge` at once; which of these the source revision is, is an `Oracle` predicate. JGit's exact exceptions and their wrapping by the operation context are not modelled.
- The texts of the cannot-run and unsupported-version exceptions of `canRun` are not modelled; those errors carry the path and version their messages print.
- The push statuses NON_EXISTING, REJECTED_NODELETE, REJECTED_NONFASTFORWARD, REJECTED_OTHER_REASON, NOT_ATTEMPTED and AWAITING_REPORT are declared but never produced: the model's push only yields OK, UP_TO_DATE or REJECTED_REMOTE_CHANGED, and every non-success status maps to false either way.
- GitCommitSupport's implementation is not modelled; its behaviour is taken from GitCommitSupportTest. Its retry on a rejected push (rebuild on the new tip) is not modelled: a commit is one attempt, and a rejected push is an error.
- Binary-content detection in line-ending conversion is not modelled: all created content is treated as text.
- Submodule resolution is a map from submodule path to the root tree of the pinned commit; the parent iterator, nested submodule iterators and I/O errors of the resolver are not modelled.
- SubmoduleIterator.DirectSubmoduleAwareTreeIterator.Next: `delta` is a natural number; a negative delta (which the Java `int` allows) is not modelled.
- SubmoduleIterator.DirectSubmoduleAwareTreeIterator.Back: a move past either end, on which JGit's wrapped iterator fails, is excluded by the precondition rather than modelled as an exception; `Next` likewise.
- The external-process commands of the update process (`init`, `fetch`, `reset`, `checkout`, `config`, `log`, `clean`) are not modelled beyond the record that `clean` ran; the file-existence test is an input predicate and `git version` is an input function.
- `GitVersion.MIN` and the version order are parameters: the minimum is an argument, and the order is a lexicographic comparison of major, minor and revision.
- Cleanup's implementation is not modelled; its behaviour is taken from CleanerTest. Mirrors idle for exactly the timeout are kept. JGit compaction and in-place native compaction are modelled as leaving the packs unchanged, because the tests pin only the out-of-place native mode.
- Cleaner.Gc: the name of the pack a native repack writes is a hash of the packed content; the model uses one fixed name.
- Cleaner.Sweep: the lock check before removing or compacting a mirror is not modelled, because the tests never hold a lock during the sweep.
- `SubInfo.java` and `AuthSettingsTest.java` are not part of this model: the first declares no behaviour, the second tests credential handling in classes outside the core.

## Findings

| source | as written | input that shows it | evidently intended | confidence | as-written member | corrected member |
|---|---|---|---|---|---|---|
| git-agent/src/jetbrains/buildServer/buildTriggers/vcs/git/agent/GitCommandUpdateProcess.java:90 | the not-configured error tells the user to set `system.git.excecutable.path` | an agent where no git is found and the property is unset: setting the property the message names still leaves `getGitPath` (:108, key at :59) without a path | the message names `system.git.executable.path`, the property `getGitPath` reads | not executed | AgentUpdate.CanRunAsWritten (shown by AgentUpdate.CanRunCorrectsOnlyMessage) | AgentUpdate.CanRun (proved by AgentUpdate.CanRunCorrectsOnlyMessage) |
