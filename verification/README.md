# Mononoke: commit contents, commit graph, repair and caching

A model of the parts of the Mononoke source control server that decide what a commit contains and whether the
server's shared state stays right while many requests run at once. Each module follows one component.

- **Trees, PathOrders, SortedLists, Reordering, BonsaiDiff, MemoryManifest, Overlay, Merging, ChangeOrder, AnyOrder,
  RoundTrip, OrderExamples, MergeCommit, ClashHistory, MemoryErrors, MemoryRoot** – a commit's file changes are the diff
  of its tree against its parents' trees, and its tree is rebuilt from those changes on top of an in-memory merge of
  the parents. The main theorems say, for every tree, every zero, one or two parents and every order of the changes,
  what rebuilding yields and in which orders it undoes diffing.
- **ManifestText, ManifestErrors** – the stored text of a manifest, its parser, and how each bad line fails.
- **TopologicalSort, Changesets, ChangesetsTable, ChangesetsReads, BatchInsert** – the commit graph in two SQL
  tables, generation numbers, reads through a lagging replica, and inserting a batch parents first.
- **CommitPipeline, CommitProgress** – commits created concurrently, each waiting for its parents, with any step
  allowed to fail: safety, the effect of each table write, and that commits can complete.
- **Healer, HealerGroups, HealerProgress, HealerReports** – the repair of blobs missing from some stores, driven by a
  queue, with any number of passes at once: its safety, which groups it heals, when a pass can get done, and what an
  incomplete one leaves in the queue.
- **BoundedHash, MemoSlots, Asyncmemo, MemoPolls, MemoSharing** – a bounded cache of shared computations: soundness,
  what one poll does, and when a computation is made anew.
- **PublicRoots, WalkManifests, WalkOnMaps, Bookmarks, BookmarkPushes** – the public commits below a set of drafts, the
  walk over the manifests of a pushed bundle, and bookmark pushes under compare-and-set transactions.

An identifier that is a hash is modelled so that equal identifiers mean equal contents: a tree's identifier is its
history and its children, a file's is its content and its file parents. Concurrent code is a state machine whose
steps are its atomic actions and whose runs are all interleavings. Answers of stores, databases, clocks and the
network are parameters or environment steps. Inductions are written out: a lemma for which Dafny would assume an
induction hypothesis of its own is marked `{:induction false}`.

Places where a plain reading of the code promises more than it does, each with inputs where it fails and the exact
condition under which it holds:

- The order of the changes matters. `OrderExamples.LateDeletionLosesFile` loses a file that nobody changed and reports
  no error. `RoundTrip.RestoresExactly` gives the orders that restore the working tree: whenever the deletion of a path
  comes after a change below it, every file below it is set after the deletion. Ascending path order is one of them;
  `OrderExamples.LateDeletionCanWork` is one that does not put paths before their extensions.
- A healing pass may never get done although everything succeeds. `HealerProgress.UnknownStoreBlocksPass` has an entry
  of a store that is no longer configured. `HealerProgress.FinishesExactly` says that a pass can be finished exactly
  if every batch with a missing store and an entry before the deadline has an entry of a configured store.
- Different manifest texts can parse to the same entries: `ManifestText.OtherDigitsParse`, `OtherOrderParses` and
  `RestIsIgnored` have upper-case digits, a plus sign, another order, and anything after an empty line.
  `ManifestText.TextWritesBack` says exactly which texts are written back unchanged.
- The search for public roots stops when it learns that there are no public heads, and then may miss a root
  (`PublicRoots.EarlyStopMissesRoot`). `PublicRoots.CalculatePublicRoots` says exactly what has been found by then.

## Model

| member | source | states |
|---|---|---|
| `BonsaiDiff.FileDiffIsExpected` | bonsai_utils/src/diff.rs:194-232 | the counting tests on the parents' files decide as intended: nothing if the parents have only this file, a reused id if some parent has it, changed if none has, deleted if the parents have files and the working tree has none |
| `BonsaiDiff.DiffIsExact` | bonsai_utils/src/diff.rs:170-191 | a result is in the recursive diff if and only if a pointwise definition on the trees expects it at that path, with or without pruning |
| `BonsaiDiff.DiffTreeIsExact` | bonsai_utils/src/diff.rs:237-308 | the same for the results strictly below a directory |
| `BonsaiDiff.RootDiffIsExact` | bonsai_utils/src/diff.rs:31-46 | the diff against zero, one or two parents is exactly the expected results at non-root paths |
| `BonsaiDiff.PruningIsSound` | bonsai_utils/src/diff.rs:255-259 | skipping subtrees with the parents' only id yields the same results, each as often |
| `BonsaiDiff.DiffYieldsOnce` | bonsai_utils/src/diff.rs:237-308 | the stream of results, as a multiset, holds no result twice, neither from one child nor from two |
| `BonsaiDiff.DiffIsPathConflictFree` | bonsai_utils/src/diff.rs:27-30 | every result is yielded exactly once, no path has two results, and a path that is not deleted is no proper prefix of another reported path |
| `BonsaiDiff.CompositeManifest` | bonsai_utils/src/composite.rs:76-96 | folding the parents' trees gives under each name the set of the parents' entries of that name |
| `BonsaiDiff.AddEntries` | bonsai_utils/src/composite.rs:112-117 | one tree's entries join those already there and no other name is touched |
| `Overlay.SaveSucceeds` | blobrepo/src/memory_manifest.rs:175-309 | saving fails for no manifest without conflicts, and a tree is saved as a tree |
| `Overlay.SaveWritesVisible` | blobrepo/src/memory_manifest.rs:175-309 | the saved tree has at every path exactly the file that the overlay of changes on the lazily read base shows |
| `Overlay.SaveWritesNoEmptyDirs` | blobrepo/src/memory_manifest.rs:98-137 | if no stored manifest below has an empty directory, the saved tree has none |
| `Overlay.ChangeEntryDescends` | blobrepo/src/memory_manifest.rs:1042-1053 | finding the directory, changing the entry and updating it in place equals one recursive descent |
| `Overlay.ChangeAltersOnlyItsPath` | blobrepo/src/memory_manifest.rs:737-770 | without conflicts, a change replaces its path and what lay beneath it, leaves every other path as it was, and fails exactly when a stored entry that is no directory in memory lies on the way |
| `Overlay.FindMutShowsSame` | blobrepo/src/memory_manifest.rs:667-734 | looking a directory up for writing leaves every visible file as it was, and fails exactly when the way is blocked |
| `Overlay.ChangesCommute` | blobrepo/src/memory_manifest.rs:597-770 | two changes at paths of which neither is a prefix of the other give the same tree and the same errors in either order, also through shared missing, unread or conflicting directories |
| `Merging.NewRootIsMerge` | blobrepo/src/memory_manifest.rs:965-993 | a new root manifest is the merge of its parents, empty if there are none |
| `Merging.ConflictsExactly` | blobrepo/src/memory_manifest.rs:456-594 | the merge holds a conflict at a path if and only if both parents have an entry there, the entries differ and one is a file |
| `RoundTrip.ConflictsAreCovered` | blobrepo/src/memory_manifest.rs:511-592 | every conflict of the merge is at a path the diff reports or below one it reports as changed |
| `RoundTrip.NothingToResolve` | blobrepo/src/memory_manifest.rs:773-921 | resolving trivial conflicts leaves a manifest without conflicts alone |
| `AnyOrder.ApplyAllBySlots` | blobrepo/src/memory_manifest.rs:667-770 | a sequence of changes to a tree acts on each name by itself, and fails if it fails below some name |
| `AnyOrder.SlotLeaves` | blobrepo/src/memory_manifest.rs:597-770 | for every order of the changes at and below one name: what is left of the working tree there, or that the changes get stuck |
| `AnyOrder.FreshRun` | blobrepo/src/memory_manifest.rs:597-627 | changes made below a conflict start from an empty directory, and the last one that touches a path decides |
| `RoundTrip.BuiltInAnyOrder` | blobrepo/src/repo.rs:1252-1337 | in whatever order the changes of a diff are applied, building fails exactly if a change comes below the parents' only file before that file is deleted, with no deletion further up that late, and otherwise yields exactly the working tree's files that are not lost |
| `RoundTrip.RestoresExactly` | blobrepo/src/repo.rs:1273-1319 | the working tree's files come back if and only if every deletion that follows a change below it is itself followed by changes of all the files below it |
| `RoundTrip.DiffLeavesNoConflict` | blobrepo/src/repo.rs:1273-1319 | with paths before their extensions, applying the diff meets no error, leaves no conflict and shows exactly the working tree's files |
| `RoundTrip.RoundTrip` | blobrepo/src/repo.rs:1252-1337 | merge, apply the diff in any order with paths before their extensions, resolve, save: the result has exactly the working tree's files |
| `RoundTrip.RoundTripIsTidy` | blobrepo/src/repo.rs:1252-1337 | rebuilding from parents without empty directories makes none |
| `RoundTrip.SameChangesSameManifest` | blobrepo/src/repo.rs:1273-1319 | two orders of the same changes, both with paths before their extensions, build equal manifests, down to the history of every directory, or both build none |
| `Reordering.SameEnd` | blobrepo/src/repo.rs:1273-1319 | two orders of the same steps in which only swappable steps change places come to the same end |
| `RoundTrip.AscendingList` | blobrepo/src/bonsai_generation.rs:151-154 | every diff has a list of its changes in ascending path order, each once |
| `RoundTrip.RoundTripOfTrees` | blobrepo/src/repo.rs:1252-1337 | for any three trees the ascending list of the diff rebuilds the working tree |
| `ChangeOrder.AscendingIsPrefixFirst` | blobrepo/src/bonsai_generation.rs:151-154 | in ascending path order each path comes before its extensions |
| `ChangeOrder.PrefixFirstLosesNothing` | blobrepo/src/repo.rs:1273-1319 | with paths before their extensions no file is lost |
| `OrderExamples.LateDeletionLosesFile` | blobrepo/src/memory_manifest.rs:597-627 | a file in one parent where the other has a directory with two files, one of them kept: deleting the other file first and then the file in the way loses the kept one without an error |
| `OrderExamples.LateDeletionCanWork` | blobrepo/src/repo.rs:1273-1319 | an order that does not put paths before their extensions and restores the working tree |
| `RoundTrip.DescendantFirstDropsTree` | blobrepo/src/memory_manifest.rs:597-627 | a change below an unsettled conflict leaves below that name nothing but the new entry |
| `RoundTrip.BuiltRecordsParents` | blobrepo/src/repo.rs:1252-1337 | whatever the changes, the built manifest has its parents' manifests as history, each once; only a commit without changes on a single manifest shares that manifest |
| `MergeCommit.ResolveAt` | blobrepo/src/memory_manifest.rs:859-921 | resolving acts on every entry by itself, at every path |
| `MergeCommit.ConflictsLeft` | blobrepo/src/memory_manifest.rs:773-921 | after resolving, a conflict is left exactly where the parents clash in type or content |
| `MergeCommit.ConflictFailsSave` | blobrepo/src/memory_manifest.rs:183-190 | a manifest with a conflict anywhere is refused when saved, and is not dropped as empty |
| `MergeCommit.MergeWithoutChanges` | blobrepo/src/repo.rs:1252-1337 | a merge commit without changes can be built if and only if all clashing files agree in type and content; it then holds both parents' files, and a file with two ids gets both as its parents |
| `ClashHistory.DirectoryOverClash` | blobrepo/src/memory_manifest.rs:597-627 | a file written below the path of a clash is saved alone in a new directory whose history is exactly the side that was a directory, if any |
| `ClashHistory.MergesSavedNodes` | blobrepo/src/memory_manifest.rs:456-595 | merging two entries, changed or not, is merging the stored nodes that they were read from or are saved as |
| `ClashHistory.MergeFailures` | blobrepo/src/memory_manifest.rs:501-560 | entries without changes cannot be merged if and only if one is a clash, or both are trees and one already has two parents |
| `MemoryErrors.ChangeErrors` | blobrepo/src/memory_manifest.rs:1042-1053 | a change reports that its path is not found if and only if a file lies above its directory, and that it is no directory if and only if the directory itself is a file |
| `MemoryRoot.MemoryRootManifest.constructor` | blobrepo/src/memory_manifest.rs:965-993 | starts from the merge of the parents |
| `MemoryRoot.MemoryRootManifest.ChangeEntry` | blobrepo/src/memory_manifest.rs:1042-1053 | the new root and the error are those of the specification; without conflicts, only the path and what lay beneath it change, and it fails exactly when the way is blocked |
| `MemoryRoot.MemoryRootManifest.ResolveTrivialConflicts` | blobrepo/src/memory_manifest.rs:1055-1064 | the new root is the old one with trivial conflicts resolved, and the old one if it has no conflict |
| `MemoryRoot.MemoryRootManifest.Save` | blobrepo/src/memory_manifest.rs:1005-1015 | without conflicts, returns a tree with exactly the visible files and leaves the root alone |
| `MemoryRoot.GetManifestFromBonsai` | blobrepo/src/repo.rs:1252-1337 | the loop over the changes returns the specified tree; for any working tree whose diff they list, in any order, it has the working tree's files if and only if the order keeps them |
| `MemoryRoot.ApplyChangesLoop` | blobrepo/src/memory_manifest.rs:311-327 | laying changes over children one by one gives the specified overlay, whatever the order |
| `MemoryRoot.MergeTreesLoop` | blobrepo/src/memory_manifest.rs:396-452 | merging entry by entry gives the specified merge |
| `ManifestText.WriteManifest` | blobrepo/src/memory_manifest.rs:240-250 | the loop writes the specified text, entry after entry |
| `ManifestText.Find` | blobrepo/src/manifest.rs:294-299 | the first position of a byte, or that there is none |
| `ManifestText.Parse` | blobrepo/src/manifest.rs:51-78 | the loop reads lines up to the first empty one, stops at the first malformed one with its error or the abort of slicing a character in its hash, and lets a later entry of the same name win |
| `ManifestText.HashRoundTrip` | mercurial_types/src/hash.rs:119-140 | reading the printed digits of a hash gives the hash |
| `ManifestText.DetailsRoundTrip` | blobrepo/src/manifest.rs:259-283 | hash and type come back from forty digits and the flag |
| `ManifestText.TextRoundTrip` | blobrepo/src/manifest.rs:51-78 | parsing what was written for any map of valid names, in any order, gives that map |
| `ManifestText.LineWritesBack` | blobrepo/src/manifest.rs:259-283 | a line that parses has a valid name and hash, and is written back unchanged if and only if its digits are lower-case hexadecimal |
| `ManifestText.TextWritesBack` | blobrepo/src/manifest.rs:51-78 | writing in ascending order what a text parses to gives the text back if and only if it ends right after the newline of its last line, its digits are lower-case and its names ascend strictly |
| `ManifestText.AscendingEntries` | blobrepo/src/manifest.rs:51-52 | every map of names has its list in strictly ascending order |
| `ManifestText.OtherDigitsParse` | mercurial_types/src/hash.rs:119-140 | a line with an upper-case digit, and one with a plus sign for a zero, parse like the line that would be written |
| `ManifestText.OtherOrderParses` | blobrepo/src/manifest.rs:51-78 | two entries in the other order make a different text that parses alike |
| `ManifestText.RestIsIgnored` | blobrepo/src/manifest.rs:54-57 | whatever follows an empty line is not read |
| `ManifestText.AsciiNeverPanics` | mercurial_types/src/hash.rs:119-140 | parsing a text of one-byte characters never aborts |
| `ManifestText.StraddlingCharacterPanics` | mercurial_types/src/hash.rs:130-132 | a hash text with a two-byte character across two pairs of digits makes parsing abort |
| `ManifestErrors.HashParses` | mercurial_types/src/hash.rs:119-140 | the digits of a hash parse if and only if every pair is two digits or a plus sign and a digit |
| `ManifestErrors.LineErrors` | blobrepo/src/manifest.rs:59-74 | a line is refused for the bytes of its name, then for the first thing wrong with length, digits, number of flags and flag, and otherwise parses |
| `ManifestErrors.NoNulError` | blobrepo/src/manifest.rs:59-60 | a line is refused for want of a NUL if and only if it has none |
| `ManifestErrors.DetailsErrors` | blobrepo/src/manifest.rs:259-283 | what follows the name parses if and only if nothing is wrong with it, into the type of its flag, and fails with the first thing that is wrong |
| `ManifestErrors.CutsExactly` | mercurial_types/src/hash.rs:130-132 | parsing aborts if and only if the text is valid and the slice of the first bad pair ends before a continuation byte |
| `ManifestErrors.Utf8Exactly` | blobrepo/src/manifest.rs:262-267 | the test for valid text accepts exactly the encodings of sequences of characters |
| `TopologicalSort.SortTopological` | blobrepo/src/utils.rs:92-142 | terminates; no result if and only if the graph has a cycle; otherwise every mentioned node once, each before its successors |
| `TopologicalSort.SearchFrom` | blobrepo/src/utils.rs:115-137 | the stack loop reports a cycle only if there is one, and otherwise finishes the node and keeps the search invariant |
| `TopologicalSort.SortedIsAcyclic` | blobrepo/src/utils.rs:92-142 | a graph with such an order has no cycle |
| `TopologicalSort.TemporaryIsCycle` | blobrepo/src/utils.rs:119-123 | visiting a node with a temporary mark means that the graph has a cycle |
| `TopologicalSort.SkipKeeps` | blobrepo/src/utils.rs:119-123 | skipping a finished node keeps the invariant |
| `TopologicalSort.VisitKeeps` | blobrepo/src/utils.rs:125-131 | visiting keeps the invariant: temporary nodes are those with a pending mark action and reach all that lies above it |
| `TopologicalSort.FinishKeeps` | blobrepo/src/utils.rs:133-136 | marking keeps the invariant: all successors are already in the output |
| `Changesets.AddKeepsGraphOk` | changesets/src/lib.rs:266-300 | an insertion keeps the table closed under parents and the generations right |
| `Changesets.RunsKeepGraphOk` | changesets/src/lib.rs:266-300 | so does every sequence of insertions |
| `Changesets.RunsExtend` | changesets/src/lib.rs:266-300 | no insertion changes a stored commit |
| `Changesets.ChainsAreShort` | changesets/src/lib.rs:269-274 | no chain of ancestors is longer than the generation |
| `Changesets.LongestChain` | changesets/src/lib.rs:269-274 | some chain of ancestors is as long as the generation |
| `Changesets.GenerationIsLongestChain` | changesets/src/lib.rs:266-300 | after any insertions into an empty table the generation is the length of the longest ancestor chain and no commit is its own ancestor |
| `ChangesetsTable.SqlChangesets.constructor` | changesets/src/lib.rs:234-250 | an empty table |
| `ChangesetsTable.SqlChangesets.SelectChangesets` | changesets/src/lib.rs:211-216 | exactly the rows of the given commits, in no particular order |
| `ChangesetsTable.SqlChangesets.SelectParents` | changesets/src/lib.rs:475-497 | the stored parents in inserted order |
| `ChangesetsTable.SqlChangesets.FindParents` | changesets/src/lib.rs:258-270 | the parents' rows, the parents without a row, and the largest generation if none is missing |
| `ChangesetsTable.SqlChangesets.CheckMatches` | changesets/src/lib.rs:456-473 | a stored commit is accepted with the same parents and refused with others |
| `ChangesetsTable.SqlChangesets.InsertRow` | changesets/src/lib.rs:275-290 | the table then holds the commit with its parents in order and everything it held before |
| `ChangesetsTable.SqlChangesets.Add` | changesets/src/lib.rs:252-302 | the result and the new graph are those of the specification: missing parents, new, again, or again with other parents |
| `ChangesetsTable.LargestGen` | changesets/src/lib.rs:269-269 | the maximum does not depend on the order of the rows |
| `ChangesetsTable.MissingRowsAreMissing` | changesets/src/lib.rs:405-421 | a parent is reported missing if and only if it has no row |
| `ChangesetsTable.ParentInserts` | changesets/src/lib.rs:423-454 | each position gets its own parent whatever the order of the parent rows |
| `ChangesetsReads.LeftJoinIsJoin` | changesets/src/lib.rs:200-209 | the left join of the two tables, ordered by position, has exactly the rows of the graph that the tables hold |
| `ChangesetsReads.SelectMany` | changesets/src/lib.rs:499-523 | grouping the rows of the left join gives each stored commit once with its parents in inserted order |
| `ChangesetsReads.GetMany` | changesets/src/lib.rs:324-362 | asking the tables of a replica that lags and then the master's for the rest gives the master's answer |
| `BatchInsert.SaveBonsaiChangesets` | blobrepo/src/repo.rs:1855-1920 | succeeds if and only if the batch has no cycle, its outside parents are stored and its stored members match; then the table is the old one plus the batch |
| `BatchInsert.AddInOrder` | blobrepo/src/repo.rs:1884-1919 | the same for the insertions one after another; on failure the table holds the old one and some of the batch |
| `BatchInsert.ReversedIsParentsFirst` | blobrepo/src/repo.rs:1879-1883 | the reversed order has every parent before its children |
| `BatchInsert.FailureIsDeserved` | blobrepo/src/repo.rs:1855-1920 | an insertion that fails shows that the batch was not insertable |
| `BatchInsert.SuccessIsDeserved` | blobrepo/src/repo.rs:1855-1920 | if all were inserted, the batch was insertable |
| `CommitPipeline.StepKeepsInv` | blobrepo/src/repo.rs:2085-2199 | every step of every task keeps the pipeline invariant |
| `CommitPipeline.RunKeepsInv` | blobrepo/src/repo.rs:2085-2199 | so does every interleaving |
| `CommitPipeline.InsertedAncestorsCompleted` | blobrepo/src/repo_commit.rs:755-796 | all in-flight ancestors of a task that wrote a row have completed |
| `CommitPipeline.PipelineIsSafe` | blobrepo/src/repo.rs:2085-2199 | in every run the table stays closed under parents, a row has its mapping, its parents' signals and its parents' completion before it, and no task that descends from a failed one has written a row |
| `CommitPipeline.MissingOnlyExisting` | blobrepo/src/repo_commit.rs:798-877 | writing a row fails for missing parents if and only if a parent was found by its mapping and has no row; parents made by the pipeline are never missing |
| `CommitPipeline.UnstoredParentHappens` | blobrepo/src/repo.rs:2085-2199 | a run from an empty repository in which a commit fails between its mapping and its row and a child made on top of it then has an unstored parent |
| `CommitProgress.InsertRowEffect` | blobrepo/src/repo.rs:2183-2198 | in every reachable state: if each recorded parent has a row and the id is new or stored with the same parents, the row is stored with those parents and the commit completes, or fails if the answer is lost; otherwise it fails and the table stays; other commits and rows are untouched |
| `CommitProgress.InsertMappingEffect` | blobrepo/src/repo.rs:2165-2182 | the mapping is written whether or not the answer is lost, and only a commit that got the answer goes on to its row |
| `CommitProgress.CanBegin` | blobrepo/src/repo.rs:1938-2085 | a commit can be begun on at most two handles in any state and starts with nothing done; it can send its id exactly once its parents have sent theirs |
| `CommitProgress.OthersStore` | changesets/src/lib.rs:252-302 | a row of another writer is stored under the same condition and touches nothing else |
| `CommitProgress.FailureIsFinal` | blobrepo/src/repo_commit.rs:755-796 | after a failure, in every continuation the commit stays failed and no commit above it writes a row or completes |
| `CommitProgress.CompleteOne` | blobrepo/src/repo.rs:2085-2199 | once the commits before it have completed, the next one can complete |
| `CommitProgress.CanComplete` | blobrepo/src/repo.rs:2085-2199 | in every reachable state in which nothing has failed and every commit that was looked up has a row, for any ids with equal ids for equal parents: some continuation completes every commit under its id, with a mapping and a row that names its parents in order |
| `Healer.FetchBlob` | cmds/blobstore_healer/healer.rs:202-244 | the answer of the last listed store that did not fail; an error if all failed or that store lacks the blob |
| `Healer.TruthfulFetch` | cmds/blobstore_healer/healer.rs:202-244 | if all asked stores hold the blob, it is found if and only if one of them answers |
| `Healer.DeletesOnlyHealed` | cmds/blobstore_healer/healer.rs:246-252 | when an entry may be deleted, every configured store holds the same blob under its key |
| `Healer.KeepsRepair` | cmds/blobstore_healer/healer.rs:184-196 | after every step a blob that some store lacks still has an entry in the queue |
| `Healer.StepKeepsInv` | cmds/blobstore_healer/healer.rs:120-200 | every step keeps the protocol invariant |
| `Healer.RunKeepsInv` | cmds/blobstore_healer/healer.rs:84-114 | so does every interleaving of passes and writers, and stores only gain blobs |
| `Healer.HealerIsSafe` | cmds/blobstore_healer/healer.rs:84-114 | in every run, with any failures and any grouping of the entries: deletion only when all stores hold the blob, repair stays pending, no store loses a blob |
| `HealerGroups.SkippedExactly` | cmds/blobstore_healer/healer.rs:129-163 | in every run a group of a pass is skipped if and only if some configured store has no entry in it and every entry is at or after the deadline of the step that started the pass; a group that all stores have entries of is cleared at once; no other step works on either |
| `HealerGroups.RunMatches` | cmds/blobstore_healer/healer.rs:84-114 | in every run the passes are the started ones, in order, each with its batches as groups |
| `HealerReports.KeptIsReported` | cmds/blobstore_healer/healer.rs:184-196 | in every run the stores reported for a group that is kept back are exactly those whose put succeeded, and none is reported for a cleared group |
| `HealerReports.ReportIsQueued` | cmds/blobstore_healer/healer.rs:254-281 | a report puts an entry of that store and key in the queue under a new id, where it stays in every continuation until some pass deletes that id |
| `HealerReports.CanFail` | cmds/blobstore_healer/healer.rs:84-114 | an operation of a pass can fail at any time until the pass has ended |
| `HealerReports.AbortIsFinal` | cmds/blobstore_healer/healer.rs:84-114 | once an operation of a pass fails, the pass takes no further step in any continuation |
| `HealerProgress.FinishedPassHeals` | cmds/blobstore_healer/healer.rs:84-114 | for each batch of a finished pass: some configured store has no entry in it and every entry is at or after the deadline, or a put of it failed in the run, or every store holds the blob of every entry and all entries are gone from the queue |
| `HealerProgress.SuccessfulPassHeals` | cmds/blobstore_healer/healer.rs:184-196 | while no operation of a pass fails, it keeps no group back and does not end early; once done, every batch with entries of all stores or an entry before the deadline is in all stores and its entries are gone |
| `HealerProgress.WaitsForever` | cmds/blobstore_healer/healer.rs:214-222 | a group without an entry of a configured store is never healed in any run, and its pass never gets to delete anything |
| `HealerProgress.UnknownStoreBlocksPass` | cmds/blobstore_healer/healer.rs:129-150 | with an old entry of a store that is not configured, the pass that reads it never finishes |
| `HealerProgress.CanFinish` | cmds/blobstore_healer/healer.rs:84-114 | as long as a pass has not been aborted and every group still to be fetched can be, some continuation without failures finishes it, whatever puts have failed before |
| `HealerProgress.FinishesExactly` | cmds/blobstore_healer/healer.rs:84-114 | a pass can run to its end without a failure if and only if every batch with a missing store and an entry before the deadline has an entry of a configured store |
| `BoundedHash.KeptIsLongestSuffix` | asyncmemo/src/boundedhash.rs:69-101 | trimming keeps the newest entries, and no longer suffix is within the limits |
| `BoundedHash.WithoutOne` | asyncmemo/src/boundedhash.rs:114-122 | removing a key takes out its one entry and keeps the others in order |
| `BoundedHash.BoundedHash.constructor` | asyncmemo/src/boundedhash.rs:30-37 | an empty table with the given limits |
| `BoundedHash.BoundedHash.TrimOne` | asyncmemo/src/boundedhash.rs:58-67 | drops the oldest entry and its weight, if there is one |
| `BoundedHash.BoundedHash.TrimForEntries` | asyncmemo/src/boundedhash.rs:69-84 | makes room for entries unless they can never fit |
| `BoundedHash.BoundedHash.TrimForWeight` | asyncmemo/src/boundedhash.rs:86-101 | makes room for weight unless it can never fit |
| `BoundedHash.BoundedHash.Trim` | asyncmemo/src/boundedhash.rs:103-106 | changes nothing, because the limits always hold |
| `BoundedHash.BoundedHash.Clear` | asyncmemo/src/boundedhash.rs:108-112 | empties the table and its weight |
| `BoundedHash.BoundedHash.Remove` | asyncmemo/src/boundedhash.rs:114-122 | returns and removes the key's value, keeping the recorded weight equal to the sum |
| `BoundedHash.BoundedHash.Insert` | asyncmemo/src/boundedhash.rs:124-147 | succeeds if and only if the value can fit; keeps the longest newest suffix of the other entries that leaves room; no machine word over- or underflows |
| `MemoSlots.SlotInsert` | asyncmemo/src/lib.rs:326-349 | a slot never replaces a complete value, whose put-back always succeeds; otherwise the slot is stored if it can fit; only old entries are evicted |
| `MemoSlots.NewShards` | asyncmemo/src/lib.rs:469-487 | the shards of a new cache are empty, weigh with the given weight and each has its equal part of both limits |
| `MemoSlots.ShardsKeepLimits` | asyncmemo/src/lib.rs:479-487 | valid shards with equal parts of the limits hold together no more entries and no more weight than the limits |
| `Asyncmemo.InsertIsStored` | asyncmemo/src/lib.rs:326-349 | what writing a slot into a shard leaves there is what the steps of the runs take it to leave, for some evicted keys |
| `Asyncmemo.NeverStuck` | asyncmemo/src/lib.rs:384-432 | a caller that has not returned can take a step, so it has not panicked |
| `Asyncmemo.StepKeepsInv` | asyncmemo/src/lib.rs:360-432 | every step of every caller, completion, invalidation and eviction keeps the invariant |
| `Asyncmemo.RunKeepsInv` | asyncmemo/src/lib.rs:360-432 | so does every interleaving |
| `Asyncmemo.MemoIsSound` | asyncmemo/src/lib.rs:360-432 | in every run a returned or cached value was produced by the filler for that key, an error comes from a failed computation for the key and goes to one caller, and no caller panics |
| `MemoPolls.PollAlone` | asyncmemo/src/lib.rs:384-432 | a poll that nobody disturbs: a cached value is returned and nothing else changes; a computation in reach is polled, that is waited for, returned and cached, or its error is taken and the slot cleared; a new computation is made if and only if none is in reach or the error of the one in reach was taken |
| `MemoPolls.HitReturns` | asyncmemo/src/lib.rs:405-408 | a call for a key that has a value returns it, and only the call itself is new |
| `MemoPolls.DroppedIsComputedAnew` | asyncmemo/src/lib.rs:419-428 | a call for a key that was dropped starts a computation and shares it through the cache |
| `MemoPolls.WaiterReturns` | asyncmemo/src/lib.rs:360-382 | a caller that waits returns the value that its computation comes to and leaves a value in the cache |
| `MemoSharing.RunHasTrace` | asyncmemo/src/lib.rs:384-432 | every run has a trace of the states it goes through, on which the next rows are stated |
| `MemoSharing.ComputesOnlyIfRefused` | asyncmemo/src/lib.rs:384-432 | in every run a step makes at most one computation, and only for a caller whose last move was to find the key absent or to find taken the error of a computation that it had found in the cache |
| `MemoSharing.ValueIsShared` | asyncmemo/src/lib.rs:405-408 | until its key is evicted, removed or dropped, a cached value stays as it is and every caller that looks it up returns it in that step without a new computation |
| `MemoSharing.ReturnedIsCached` | asyncmemo/src/lib.rs:377-381 | a caller that returns the value of a computation leaves a value under its key and every other slot as it was, except what its write evicts |
| `MemoSharing.PollIsShort` | asyncmemo/src/lib.rs:384-432 | in every run a caller makes at most twelve moves before its poll ends, whatever the others do |
| `PublicRoots.ReachedIsInside` | bundle2_resolver/src/getbundle_response.rs:255-334 | a set with the starts and the draft parents of its members holds all reached drafts |
| `PublicRoots.ExpandKeeps` | bundle2_resolver/src/getbundle_response.rs:277-329 | after each round the expanded drafts are exactly those within that many commits |
| `PublicRoots.AllFound` | bundle2_resolver/src/getbundle_response.rs:273-275 | when no draft is left, exactly the roots have been found |
| `PublicRoots.CalculatePublicRoots` | bundle2_resolver/src/getbundle_response.rs:255-334 | terminates on every graph; with public heads the result is exactly the public parents of drafts reached through drafts; with none, exactly those found before that became known |
| `PublicRoots.EarlyStopMissesRoot` | bundle2_resolver/src/getbundle_response.rs:266-275 | a public commit and its draft child: if the search starts out knowing of no public heads, the root is missed |
| `WalkManifests.Walk` | bundle2_resolver/src/resolver.rs:1619-1715 | terminates on every bundle, also with cycles; fails if and only if a manifest that is reached lies too deep or lists an uploaded file without content, with an error that says which; otherwise returns each supplied subtree and file reached through new entries once, with the right counts |
| `WalkManifests.WalkEntry` | bundle2_resolver/src/resolver.rs:1643-1712 | the same for what lies at and below one entry |
| `WalkOnMaps.WalkRoot` | bundle2_resolver/src/resolver.rs:1553-1616 | on the uploaded maps alone: from the root, through directories that neither uploaded parent lists with the same hash, type and flag, each level's parents looked up by path and hash, exactly the uploaded new entries are returned; it fails if and only if a path that is reached has more than 4096 bytes or a file to be returned has no content |
| `WalkOnMaps.FirstLevel` | bundle2_resolver/src/resolver.rs:1643-1650 | an entry that an uploaded parent has too is passed over with all below it; any other that was uploaded is returned under its own key |
| `WalkOnMaps.ExpectedIsOnMaps` | bundle2_resolver/src/resolver.rs:1619-1715 | what the walk returns is exactly what is listed new in a manifest reached level by level on the maps |
| `WalkOnMaps.FollowReaches` | bundle2_resolver/src/resolver.rs:1664-1690 | following names through the walk reaches a manifest if and only if a chain of uploaded manifests does, each the next name's in the one before |
| `Bookmarks.Commit` | bookmarks/dbbookmarks/src/lib.rs:477-655 | the transaction succeeds if and only if every bookmark is where it was expected; then all forced and compared moves are made, otherwise none |
| `Bookmarks.RunUpdates` | bookmarks/dbbookmarks/src/lib.rs:548-599 | the updates succeed if and only if each finds the expected old position |
| `Bookmarks.RunDeletes` | bookmarks/dbbookmarks/src/lib.rs:617-644 | the deletions succeed if and only if each finds the expected old position |
| `Bookmarks.PhasesSeeTable` | bookmarks/dbbookmarks/src/lib.rs:477-655 | no phase of a transaction disturbs what a later one compares |
| `Bookmarks.PhasesAddUp` | bookmarks/dbbookmarks/src/lib.rs:477-655 | the phases one after another make exactly the moves of the transaction |
| `Bookmarks.AllowedIsForward` | bundle2_resolver/src/resolver.rs:1450-1497 | a transaction of allowed pushes deletes no fast-forward-only bookmark and moves each to a descendant of the position it demands |
| `Bookmarks.StepMovesForward` | bundle2_resolver/src/resolver.rs:1450-1497 | each check, commit or other write moves those bookmarks only forward |
| `Bookmarks.FastForwardOnly` | bundle2_resolver/src/resolver.rs:1450-1497 | in every interleaving a fast-forward-only bookmark is never deleted and later positions descend from earlier ones |
| `Bookmarks.StalePushCannotCommit` | bookmarks/src/lib.rs:303-352 | a transaction with a push that is not a fast-forward from the bookmark's present position cannot commit |
| `BookmarkPushes.AllowedExactly` | bundle2_resolver/src/resolver.rs:1463-1483 | a push passes if and only if it creates, moves to a descendant or stays, deletes a bookmark that is not fast-forward only, or moves such a bookmark with leave |
| `BookmarkPushes.AddsExactly` | bookmarks/dbbookmarks/src/lib.rs:424-475 | pushes fit in one transaction if and only if no two that do something have the same bookmark |
| `BookmarkPushes.CommitsExactly` | bookmarks/dbbookmarks/src/lib.rs:477-655 | the transaction of some pushes commits if and only if every bookmark is where its push says, and then takes each where its push says and moves no other |
| `BookmarkPushes.CommitMovesForward` | bundle2_resolver/src/resolver.rs:1463-1497 | in every run a commit makes all moves of its pushes or none; a push without leave moves its bookmark only to a descendant, whatever the bookmark; a fast-forward-only bookmark moves only to a descendant and is not deleted, whatever the leave |
| `BookmarkPushes.HarmlessPushesGoThrough` | bundle2_resolver/src/resolver.rs:1463-1497 | harmless pushes of different bookmarks pass the check in every state and, committed at once, make all their moves if and only if each bookmark is where its push says |

## Left out

- MemoryRootManifest.ChangeEntry: the shared change map that clones of an entry update in place is modelled as a value held by the root; aliasing between clones is not captured.
- GetManifestFromBonsai: applies each change as a whole; the source starts them together, so their lookups of directories can interleave. Every order of whole changes is covered. A stored file change is any entry with the recorded type and content.
- MemoryRootManifest.Save: which error is returned first among several children, filenode bookkeeping and uploads are not modelled; neither are blobstore failures and missing manifests while reading trees.
- ResolveTrivialConflicts: conflicts between files compare file contents directly, not through fetched blobs.
- SqlChangesets.Add: one repository's slice of the tables; generation and position are unbounded integers; database failures and retries are not modelled.
- SaveBonsaiChangesets: the upload of the commit objects before the table writes, and the abort on a cycle, which is an error result here.
- PipelineIsSafe: uploads of entries, case-conflict checks, copy information and the finalising of required hashes are one step that may fail.
- HealerIsSafe: the write through the multiplexed store is one environment step that stores the blob and queues an entry; rate limiting is left out.
- MemoIsSound: the shared futures, wake-ups and the sharding hash are nondeterministic steps; statistics are left out. Which keys a write evicts is any choice here; `MemoSlots.SlotInsert` bounds it.
- CalculatePublicRoots: phases are a fixed set; how they are computed and hinted is left out.
- Walk: names are single path elements, which the writers of manifests use; the source's type would admit paths of several elements, about which nothing is stated. Manifests and filelogs are values; the prefetching of blobs and the blob futures are left out.
- WalkEntry: the same restriction to names of one element.
- FastForwardOnly: the ancestor query is exact reachability; forced moves of fast-forward-only bookmarks and pushrebase are outside the run.
- Commit: the log of moves and database failures are left out.
- Caches, wire and thrift encodings, command lines, HTTP handlers, logging and statistics: plumbing with easy or no properties.
- Filenode storage, revision sets and pushrebase: not needed for the properties above.
