# Verified models of the algorithms and protocols in `internal/`

The repository is a collection of independent Go packages. This project models the ones
whose correctness is not visible from any single function: a B+ tree, a diff/patch/merge
engine, a majority lock, a cron search, a graph store, a content chunker with its index file,
a phrase index, the DNS wire format, a barrier, a drain on shutdown and a consistent-hash
ring. Code that updates structures in place is modelled by classes, arrays and loops; code
that computes a value by functions; protocols by steps over whole runs. Where the Go code
holds a mutex, a step is atomic; where it unlocks, another step may come between.

| package | modules | what is proved |
|---|---|---|
| `bplustree` | `BPlusShape`, `BPlusTree`, `BPlusIterator`, `BPlusOrder`, `GoStrings` | after any inserts and deletes the linked tree is a balanced B+ tree and denotes exactly the sorted map; scans and iterators, including deletion under the iterator, agree with that map |
| `diffpatch` | `Myers`, `Hunks`, `Text`, `Apply`, `Decimal`, `UnifiedFormat`, `PatchDialect`, `PatchText`, `Merge` | the edit script is a shortest one; hunks describe it exactly; applying a diff rebuilds the new text (with the exact condition on final newlines), also when the patch travels as text; printing and parsing a patch round-trips exactly for the printable patches, and what other tools write is read too; a merge conflicts exactly when changes that meet disagree, and otherwise splices in each change once |
| `distlock` | `LockManager`, `Redlock`, `RedlockRollback`, `RedlockLimits` | until it expires a node's lock is its holder's alone, and goes with the last of its unlocks; no two tokens own one key in any run; nothing is left behind by a failed attempt or a release, an attempt is granted exactly when a majority answered in time, and no client gets stuck; the exact bound on how late a client may read its clock, with a violating run beyond it for every number of nodes |
| `cronsched` | `Calendar`, `Cron`, `CronFields` | the search returns the least matching second, although it skips whole years, months, days, hours and minutes; an error means that no later second ever matches; matching is membership in the expanded fields, in the calendar as it is |
| `graphdb` | `Graph`, `Dijkstra`, `Traversal` | both adjacency stores list one edge set; shortest paths are real and minimal; BFS reaches exactly the ball of the given radius, nearest first |
| `datadedup` | `Bytes`, `RollingHash`, `Chunker`, `IndexFile`, `IndexLayout` | the rolling hash equals the polynomial of its window without overflow; chunks rebuild the data and resynchronise; loads return what saves and in-place appends wrote, a file loads exactly when it follows the format byte by byte, and a checksum pins the contents |
| `fulltext` | `FullText` | postings hold exactly the positions of the stored texts; phrase search agrees with a scan of them |
| `dnsresolver` | `DnsWire`, `DnsMessage` | a name is read exactly when it is spelled through at most ten pointers; whole messages, compressed or not, decode to what was sent |
| `barrier` | `Barrier` | a release happens exactly at the last arrival of a generation; every waiter gets one result, and all waiters of one release the same |
| `chainhash` | `ChainHash` | a key goes to the owner of the first position clockwise of its hash, and its further nodes follow by distance; removing a node strikes it from every key's preference order and changes nothing else, exactly when no position of it is another node's; an order names every node exactly when every node owns a position |
| `graceful` | `Graceful` | once the drain has seen zero, no admitted request exists or ever will; nobody is refused before the stop and nobody admitted after it |

Where the code and its intent differ, the model follows the code and the difference is stated
as a theorem:

- `Diff` followed by `ApplyPatchDirect` gives back the new text only if the final newlines
  agree: `Apply.DiffThenApply` has the exact condition.
- A printed patch parses back only if no deleted line starts with `-- ` and no inserted one
  with `++ `, the counts agree and names and lines have no newline: `UnifiedFormat.RoundTrip`.
- The first lines of a hunk carry the old line number as their new one, which is wrong once an
  earlier hunk has shifted the text: `Hunks.NumbersRightExactly`, `Hunks.WrongContextNumber`.
- The majority lock subtracts `ClockDrift` but takes its stamps after the nodes took theirs,
  without bounding the delay: `RedlockLimits.SafeExactly` says which delays are harmless.
- `ShortestPath` reports no path when every path weighs 1e18 or more: `Dijkstra.ShortestPath`,
  and `Dijkstra.ReachableButNoPath` for a target one edge away.
- A node that shares a hash position with another takes it along when it leaves:
  `ChainHash.HashRing.RemoveNode` says when removal is clean, `ChainHash.CollisionLoses` when not.
- `Save` writes fingerprints that `Load` and `Append` refuse: `IndexFile.PersistIndex.SaveThenLoad`,
  `IndexFile.PersistIndex.AppendFingerprint`.
- From a time more years before a wanted year than there are iterations the cron search gives up,
  although there are matches: `Cron.NextTimeWithConfig`, `Cron.GivesUp`.
- The release branch of the barrier's timeout callback is dead code: `Barrier.Barrier.Fire`.
- `isValidDay` and the hour-gap test of the cron search never decide in UTC:
  `Cron.RealDatesAreValid`, `Cron.NoClockGaps`.
- A merged text loses its final newline, and with it a last line that is empty:
  `Merge.ThreeWayMerge` has both conditions, `Merge.NewlineLost` and `Merge.LineLost` an input for
  each.

## Model

| member | source | states |
|---|---|---|
| BPlusTree.Tree.constructor | internal/bplustree/bplustree.go:52-71 | a new tree is valid and empty; key limits below 2 become 32 and odd ones are rounded up |
| BPlusTree.Tree.Insert | internal/bplustree/bplustree.go:81-108 | the map the tree denotes is updated at one key, and the whole shape (balance, occupancy, separators, parent links, leaf chain, count) is kept through any chain of splits |
| BPlusTree.Tree.FindLeaf | internal/bplustree/bplustree.go:110-120 | ends at the one leaf whose bounds admit the key |
| BPlusTree.Tree.SplitLeaf | internal/bplustree/bplustree.go:122-149 | a leaf one entry too long is split and the tree is whole again, denoting the same map |
| BPlusTree.Tree.InsertIntoParent | internal/bplustree/bplustree.go:151-186 | a pending separator and right sibling are linked in, up to a new root, and the tree is whole again |
| BPlusTree.Tree.SplitInternal | internal/bplustree/bplustree.go:188-212 | an inner node one key too long is split, its middle key moves up, and the tree is whole again |
| BPlusTree.Tree.Search | internal/bplustree/bplustree.go:214-228 | finds a key exactly when the map has it, with its value |
| BPlusTree.Tree.FindNodeIndex | internal/bplustree/bplustree.go:230-240 | the first position of a child among its parent's children, -1 for the root and for a node its parent does not list |
| BPlusTree.Tree.Delete | internal/bplustree/bplustree.go:242-264 | removes exactly that key, reports whether it was there, and keeps the shape through any chain of borrows and merges |
| BPlusTree.Tree.DeleteFromLeaf | internal/bplustree/bplustree.go:266-283 | dropping one entry of a leaf leaves a whole tree without exactly that key |
| BPlusTree.Tree.UpdateParentSeparatorAfterLeafDelete | internal/bplustree/bplustree.go:285-298 | the separator before the leaf becomes the leaf's first key, every other key stays, every bound is kept, and only the leaf may be short |
| BPlusTree.Tree.RebalanceLeaf | internal/bplustree/bplustree.go:300-329 | a tree whole but for one leaf one entry short becomes whole |
| BPlusTree.Tree.BorrowFromLeftLeaf | internal/bplustree/bplustree.go:331-344 | taking the left sibling's last entry makes the tree whole and changes no entry of the map |
| BPlusTree.Tree.BorrowFromRightLeaf | internal/bplustree/bplustree.go:346-363 | taking the right sibling's first entry makes the tree whole and changes no entry of the map |
| BPlusTree.Tree.MergeWithLeftLeaf | internal/bplustree/bplustree.go:365-376 | joining two leaves mends the chain, and the loss of a child is repaired up to the root |
| BPlusTree.Tree.MergeWithRightLeaf | internal/bplustree/bplustree.go:378-389 | the same towards the right sibling |
| BPlusTree.Tree.RemoveChildFromInternal | internal/bplustree/bplustree.go:391-413 | unlinking a dead child, collapsing a root with one child, leaves a whole tree |
| BPlusTree.Tree.RebalanceInternal | internal/bplustree/bplustree.go:415-449 | a tree whole but for one inner node one key short becomes whole |
| BPlusTree.Tree.BorrowFromLeftInternal | internal/bplustree/bplustree.go:451-467 | rotating a child through the parent's separator makes the tree whole |
| BPlusTree.Tree.BorrowFromRightInternal | internal/bplustree/bplustree.go:469-492 | the same from the right |
| BPlusTree.Tree.MergeWithLeftInternal | internal/bplustree/bplustree.go:494-506 | joining two inner nodes around their separator, children re-parented, leaves a whole tree |
| BPlusTree.Tree.MergeWithRightInternal | internal/bplustree/bplustree.go:508-520 | the same towards the right sibling |
| BPlusTree.Tree.RangeScan | internal/bplustree/bplustree.go:522-557 | exactly the entries with start <= key <= end, ascending; refused exactly when start > end |
| BPlusIterator.NewIterator | internal/bplustree/bplustree.go:567-588 | starts at the least key, invalid exactly on an empty tree |
| BPlusIterator.NewIteratorAt | internal/bplustree/bplustree.go:590-622 | starts at the least key not below the given one, invalid only if there is none |
| BPlusIterator.Iterator.Next | internal/bplustree/bplustree.go:642-664 | from a place in a leaf of the tree, changed or not, it moves to the least entry above the key there, or beyond the leaf if the place is past its end; done exactly when there is none; elsewhere it still reads the key at its new place |
| BPlusIterator.Iterator.Prev | internal/bplustree/bplustree.go:666-688 | from a place in a leaf of the tree, changed or not, it moves to the greatest entry below the key there, or the last of the leaf if the place is just past it; done exactly when there is none; elsewhere it still reads the key at its new place |
| BPlusIterator.Iterator.Delete | internal/bplustree/bplustree.go:690-751 | removes its key, lands on the successor, else the predecessor, else is invalid, even when the deletion rebalances the tree under it |
| BPlusOrder.ChainIsInOrder | internal/bplustree/bplustree.go:122-149 | in every valid heap the leaf chain, followed by next and by prev, is the in-order list of all leaves, each ending where the next begins |
| BPlusOrder.Replay | internal/bplustree/bplustree.go:81-264 | after any sequence of inserts and deletes the tree is valid and denotes the fold of the sequence, and the count is its size |
| GoStrings.RankOrder | internal/bplustree/bplustree.go:110-120 | Go's string order embeds in the order of the keys used by the model, and distinct strings stay distinct |
| Myers.MyersDiff | internal/diffpatch/myers.go:16-76 | the script turns a into b, no script that does has fewer insertions and deletions, and it is the one the greedy choices determine |
| Myers.Search | internal/diffpatch/myers.go:38-76 | on non-empty inputs the loop always ends with a script whose cost is the edit distance |
| Myers.ExploreRound | internal/diffpatch/myers.go:52-72 | round d either ends at both ends, and then the edit distance is d, or records the furthest point of every diagonal and the distance is larger |
| Myers.ExploreDiagonal | internal/diffpatch/myers.go:52-67 | one diagonal's entry becomes the furthest point reachable with d edits |
| Myers.GreedyIsFurthest | internal/diffpatch/myers.go:52-67 | choosing the better neighbour of round d-1 and sliding gives the furthest point with at most d edits |
| Myers.StopsAtEnd | internal/diffpatch/myers.go:69-71 | the stop test fires at exactly (len a, len b), never beyond, at the round that is the distance |
| Myers.NotYet | internal/diffpatch/myers.go:47-73 | a round that did not stop proves the distance is not d |
| Myers.Backtrack | internal/diffpatch/myers.go:78-129 | walking the saved trace back gives a script from a to b with exactly d edits |
| Myers.StepBack | internal/diffpatch/myers.go:88-115 | one step back covers the snake and one edit and lands on the furthest point of the round before |
| Myers.DistIsLeast | internal/diffpatch/myers.go:16-76 | the recursive distance bounds the cost of every script from below |
| Hunks.BuildHunks | internal/diffpatch/myers.go:131-288 | the hunks cover every change of the script once and in order, are separated by unchanged lines only, have right starts and counts and exactly the prescribed context before and after; deleted lines carry their old number, inserted and later unchanged lines right numbers, and the context before the first change its old number twice |
| Hunks.NumbersRightExactly | internal/diffpatch/myers.go:208-214 | all new line numbers of a hunk are right if and only if it starts at the same old and new line or with a change |
| Hunks.WrongContextNumber | internal/diffpatch/myers.go:208-214 | a script whose second hunk says new line 6 for new line 7 |
| Text.SplitText | internal/diffpatch/diffpatch.go:90-103 | the scan equals the recursive split at newlines, with no line for a final newline |
| Text.JoinSplit | internal/diffpatch/diffpatch.go:90-103 | joining the lines restores the text up to its final newline; only the empty text has no lines |
| Text.SplitDetermines | internal/diffpatch/diffpatch.go:90-103 | texts with equal lines are equal exactly when both or neither end in a newline |
| Text.SplitJoin | internal/diffpatch/diffpatch.go:90-103 | splitting joined lines gives them back but for a last line that is empty |
| Text.JoinEnds | internal/diffpatch/diffpatch.go:90-103 | joined lines end in a newline if and only if there are two or more and the last is empty |
| Apply.VerifyContext | internal/diffpatch/apply.go:95-121 | true exactly when the context and deleted lines stand in the file at that place |
| Apply.ApplyHunk | internal/diffpatch/apply.go:29-71 | a hunk that fits replaces its old side by its new side; one that does not leaves the base lines and records one conflict |
| Apply.NoConflicts | internal/diffpatch/apply.go:16-89 | there is no conflict exactly when every hunk fits the original |
| Apply.EachReported | internal/diffpatch/apply.go:29-71 | every hunk that does not fit has its own conflict, in order, with the line numbers it was meant for, the lines that stand there as far as the text goes, and the lines it would insert |
| Apply.InsertOnlyFits | internal/diffpatch/apply.go:95-121 | the hunks that no text can reject are exactly those that only insert |
| Apply.ApplyHunks | internal/diffpatch/apply.go:16-89 | for any hunks that do not go back: each that fits gives its new side, each other the lines it covers, with the lines between and after; the conflicts are those of the hunks that do not fit |
| Apply.InOrderRebuilds | internal/diffpatch/apply.go:16-89 | hunks that show an edit script of the file, in order, rebuild its new side without conflict |
| Apply.RejectedKeep | internal/diffpatch/apply.go:29-71 | hunks that are all rejected leave the text as it is |
| Apply.ApplyPatchDirect | internal/diffpatch/apply.go:16-89 | the conflicts are those of the hunks that do not fit, rejection means some conflict, and the text is that of ApplyHunks with the final newline rule |
| Apply.Diff | internal/diffpatch/diffpatch.go:69-81 | refuses exactly two empty texts; otherwise the hunks describe the shortest script MyersDiff finds between the lines |
| Apply.DiffThenApply | internal/diffpatch/apply.go:16-89 | applying the diff of any two texts never conflicts, and gives the new text exactly when it is empty or the final newlines agree (an empty old text counts as ending in one) |
| Decimal.ScanPrint | internal/diffpatch/patch.go:193-214 | scanning a printed 64-bit integer before any non-digit gives it back |
| Decimal.ScanMeans | internal/diffpatch/patch.go:193-214 | on any text: blanks are skipped, one sign is read, and then the digits give the number, unless there are none or it does not fit 64 bits |
| UnifiedFormat.PatchToUnified | internal/diffpatch/patch.go:25-55 | the builder writes exactly the lines of the patch, each ended by a newline |
| UnifiedFormat.KnownText | internal/diffpatch/patch.go:25-55 | a patch with a kept, a deleted and an inserted line, and its six lines in print |
| UnifiedFormat.ParsePatch | internal/diffpatch/patch.go:57-160 | the line-by-line parser with its mutable current hunk equals the recursive grammar, errors included |
| UnifiedFormat.ParsesRange | internal/diffpatch/patch.go:193-214 | a printed range reads back |
| UnifiedFormat.ParsesShortRange | internal/diffpatch/patch.go:193-214 | a range without its count reads as one line |
| UnifiedFormat.ParsesHeader | internal/diffpatch/patch.go:162-191 | a printed hunk header reads back |
| UnifiedFormat.ParsedIsClean | internal/diffpatch/patch.go:57-160 | whatever parses has consistent counts, one-line contents and something in it |
| UnifiedFormat.RoundTrip | internal/diffpatch/patch.go:25-214 | a printed patch parses back to itself, up to line numbers, exactly when it is printable |
| PatchDialect.ReadsHead | internal/diffpatch/patch.go:162-214 | a hunk header reads back with any heading behind it and with counts of one left out on either side |
| PatchDialect.DialectReads | internal/diffpatch/patch.go:57-160 | a patch with such headers, and with any other lines before its file names and between them and its first hunk, parses to itself up to line numbers |
| PatchDialect.UnmarkedRefused | internal/diffpatch/patch.go:57-160 | a patch with a line in a hunk that starts with none of the marks is refused |
| PatchText.GeneratePatch | internal/diffpatch/patch.go:8-23 | refuses exactly two empty texts; otherwise prints a patch whose hunks describe the shortest script |
| PatchText.ApplyPatch | internal/diffpatch/apply.go:7-14 | fails exactly on text that does not parse; otherwise the patch that was parsed is applied, and no parsed patch makes the application panic |
| PatchText.GenerateThenApply | internal/diffpatch/patch.go:8-23 | a generated patch text, applied to the old text, is accepted and gives the new text exactly under the newline condition of DiffThenApply, provided that no changed line reads like a header, the names have no newline and there is a name or a change |
| Merge.DiffToChanges | internal/diffpatch/merge.go:70-111 | the changes are those of the script, one for every run of deletions and insertions, ordered and apart, and spliced into the base give the new lines |
| Merge.ChangesAreRuns | internal/diffpatch/merge.go:70-111 | every change changes something, any two have an unchanged line between them, and together they delete and insert as many lines as the script |
| Merge.DetectConflicts | internal/diffpatch/merge.go:113-132 | of changes that run forward it lists exactly the pairs with different text that start alike, share a base line or have one inserting strictly inside the other; each once and in order |
| Merge.OverlapIsMeeting | internal/diffpatch/merge.go:134-142 | two ranges overlap if and only if they start alike, share a line or one is an insertion strictly inside the other |
| Merge.SortByStart | internal/diffpatch/merge.go:213-227 | the exchange sort permutes and orders by start |
| Merge.DeduplicateChanges | internal/diffpatch/merge.go:229-239 | keeps exactly the first change at each start |
| Merge.FirstsSelect | internal/diffpatch/merge.go:229-239 | of sorted changes one is left for every start, in ascending order |
| Merge.MergeChanges | internal/diffpatch/merge.go:213-239 | a change of either side for every start, ascending; when overlapping changes are the same, every change of both sides exactly once, in order and apart |
| Merge.Splice | internal/diffpatch/merge.go:241-266 | the copying loop lays all changes over the base, also when they overlap |
| Merge.LaidInOrder | internal/diffpatch/merge.go:241-266 | changes in order and apart are simply spliced in |
| Merge.ChangesBetween | internal/diffpatch/merge.go:28-38 | the changes of one side turn the base lines into that side's lines |
| Merge.MergeSymmetric | internal/diffpatch/merge.go:8-61 | two runs with ours and theirs swapped conflict alike, and return the same text when overlapping changes agree |
| Merge.SeparateChangesMerge | internal/diffpatch/merge.go:8-61 | changes with different starts and no line in common always merge, and the text is the base with each of them made once |
| Merge.ThreeWayMerge | internal/diffpatch/merge.go:8-61 | an unchanged side yields the other; a conflict is reported exactly when a change of ours and one of theirs have different text and start alike, share a base line or one inserts strictly inside the other, with exactly those pairs; otherwise the lines are the base with a change for every start laid over it, and with every change of both sides made once when overlapping ones agree; the text keeps those lines if and only if the last is not empty, and ends in a newline if and only if there are two or more and the last is empty |
| Merge.NewlineLost | internal/diffpatch/merge.go:241-266 | three texts that end in a newline and whose merge does not |
| Merge.LineLost | internal/diffpatch/merge.go:241-266 | a merge whose text lacks an empty last line of the merged lines |
| LockManager.AfterLock | internal/distlock/distlock.go:146-190 | succeeds if and only if the arguments are valid, the node runs and the key is free, expired or its own below the reentrancy limit; then the key is held until now + ttl, once more than before; each refusal has its condition and changes nothing, and a live entry of another token is untouchable |
| LockManager.AfterUnlock | internal/distlock/distlock.go:192-228 | succeeds if and only if the node runs and the token holds the key; then the entry counts one less or is gone; an expired entry is dropped with its error, any other refusal changes nothing, and no other key is touched |
| LockManager.AfterHeartbeat | internal/distlock/distlock.go:230-265 | succeeds if and only if the arguments are valid, the node runs and the token holds the key; then the entry lasts until now + ttl and is otherwise the same; an expired entry is dropped with its error, any other refusal changes nothing |
| LockManager.Clean | internal/distlock/distlock.go:365-386 | drops exactly the expired entries among the given keys and changes no other |
| LockManager.OperationsKeepWellFormed | internal/distlock/distlock.go:146-265 | one call keeps reentrancy within 1 and the limit, under a non-empty key and token |
| LockManager.RunKeepsWellFormed | internal/distlock/distlock.go:131-386 | so does every run of locks, unlocks, heartbeats and clean-ups |
| LockManager.HolderKeeps | internal/distlock/distlock.go:131-386 | until a lock expires, no run of other tokens' calls and of clean-ups changes its entry |
| LockManager.UnlockUndoesLock | internal/distlock/distlock.go:146-228 | a timely unlock undoes a lock, up to the expiry of a reentrant entry |
| LockManager.LocksNest | internal/distlock/distlock.go:146-228 | over any run of timely calls by anybody a holder whose locks less its unlocks stay between one and the limit still holds the key, that many times |
| LockManager.Manager.Lock | internal/distlock/distlock.go:146-190 | the updated fields are those of the transition |
| LockManager.Manager.Unlock | internal/distlock/distlock.go:192-228 | the updated fields are those of the transition |
| LockManager.Manager.Heartbeat | internal/distlock/distlock.go:230-265 | the updated fields are those of the transition |
| LockManager.Manager.CleanExpired | internal/distlock/distlock.go:365-386 | the loop over the map removes exactly the expired entries and counts them |
| Redlock.StepKeeps | internal/distlock/distlock.go:601-758 | every step of every client, of the clock, of clean-up and of Stop keeps the invariant that a holder's majority of nodes holds its token for as long as its expiry says; what attempts and releases give back is StepTidy |
| Redlock.DecideBeatKeeps | internal/distlock/distlock.go:701-758 | a heartbeat, granted or not, never shortens what the client believes it holds |
| Redlock.Exclusive | internal/distlock/distlock.go:601-654 | by quorum intersection two owners of one key are the same token |
| Redlock.RedlockSafety | internal/distlock/distlock.go:146-265 | in every state of every run, across retries, rollbacks, expiries, clean-ups and heartbeats, two tokens never both own a key |
| RedlockRollback.StepTidy | internal/distlock/distlock.go:549-758 | every step, however late the stamps, keeps the invariant that a lock on a working node belongs to a client that asked for it, is held once, and is accounted for |
| RedlockRollback.NothingLeftBehind | internal/distlock/distlock.go:656-699 | in every state of every run no working node holds a lock its client has given back, by the rollback of a failed attempt or by a release, nor holds one twice |
| RedlockRollback.DecidesExactly | internal/distlock/distlock.go:601-654 | an attempt is granted if and only if more than half of the nodes answered and every stamp outlasts the drift, until the least of them less the drift; otherwise every node that answered is to be given back |
| RedlockRollback.BeatsExactly | internal/distlock/distlock.go:701-758 | a heartbeat renewed in time at more than half of the nodes moves the expiry to the least new stamp less the drift; any other leaves the acquisition as it was |
| RedlockRollback.GrantedAlone | internal/distlock/distlock.go:549-654 | a client that nobody disturbs, at its first attempt or a retry, is granted the key if and only if more than half of the nodes are free for it and the ttl exceeds the drift |
| RedlockRollback.NeverStuck | internal/distlock/distlock.go:549-758 | in every state of every run a client that is not finished has a next step, unless it is already too late to read its clock |
| RedlockLimits.LateStampBreaks | internal/distlock/distlock.go:601-654 | with stamps two nanoseconds later than ClockDrift, a run for any odd number of nodes ends with two owners |
| RedlockLimits.SafeExactly | internal/distlock/distlock.go:601-758 | all runs are safe if and only if stamps lag by at most ClockDrift plus one nanosecond, or the ttl is too short for anything to be granted |
| Calendar.FieldsRoundTrip | internal/cronsched/scheduler.go:368-374 | every second is the date of its own fields |
| Calendar.DateFields | internal/cronsched/scheduler.go:376-405 | every valid date has its own fields back, so the jumps land where they should |
| Calendar.FieldsRepeat | internal/cronsched/scheduler.go:368-374 | 146097 days later every field but the year is the same, and the year is 400 on |
| Calendar.Epoch | internal/cronsched/scheduler.go:368-374 | the first of January 1970 starts at second 0 and is a Thursday |
| Calendar.NextWeekday | internal/cronsched/scheduler.go:374-374 | a day later is the next day of the week |
| Calendar.MonthLengths | internal/cronsched/scheduler.go:485-491 | months have the lengths of the Gregorian calendar |
| Calendar.DayAfter | internal/cronsched/scheduler.go:368-374 | a day later is the next day of the month, the first of the next month or the first of January, at the same time of day |
| Cron.RealDatesAreValid | internal/cronsched/scheduler.go:485-491 | no real date fails isValidDay |
| Cron.NoClockGaps | internal/cronsched/scheduler.go:410-417 | in UTC an hour later is the next hour or another day |
| Cron.AdvanceDate | internal/cronsched/scheduler.go:376-405 | passes exactly the dates wanted; otherwise the jump skips no matching second, lands on a later midnight, and after a wrong year in the next |
| Cron.AdvanceClock | internal/cronsched/scheduler.go:407-446 | passes exactly the times wanted; otherwise the jump skips no matching second and stays on the day or lands on the next midnight |
| Cron.Advance | internal/cronsched/scheduler.go:365-453 | an iteration stops exactly at a match, or moves on over none as the two above do |
| Cron.PassCosts | internal/cronsched/scheduler.go:365-453 | every iteration lowers a bound of one per day up to the first match and two days' worth of seconds |
| Cron.NextTimeWithConfig | internal/cronsched/scheduler.go:346-457 | the least whole second after from that matches; an error means none matches in as many seconds as there are iterations, nor in as many days but for 172800; an error is certain when as many years in a row are not wanted |
| Cron.NextTime | internal/cronsched/scheduler.go:342-344 | with the default limit there is an error if and only if no later second ever matches, for every expression without a year, and for one with years when the last ends at most 31449600 days away |
| Cron.GivesUp | internal/cronsched/scheduler.go:365-379 | every second of 2030, asked for from the year -40000000, is reported as having no next time |
| Cron.NextTimes | internal/cronsched/scheduler.go:459-473 | the first n matches, none missing; or an error, when fewer were found and the search after the last of them fails as NextTime says |
| CronFields.Expand | internal/cronsched/scheduler.go:712-751 | the ascending list of exactly the values of the parts, once each |
| CronFields.FieldIs | internal/cronsched/scheduler.go:712-751 | a field matches a value of its range if and only if it expands to it |
| CronFields.DayIsBoth | internal/cronsched/scheduler.go:677-690 | a day must match both the day and the weekday field, whichever are wildcards |
| CronFields.MatchesMeans | internal/cronsched/scheduler.go:653-702 | a second matches if and only if each field, in the ranges of the parser, expands to the value the calendar gives |
| CronFields.NextMonday | internal/cronsched/scheduler.go:342-457 | from the epoch on, Mondays at noon start at second 388800, the fifth of January 1970 |
| CronFields.NextLeapDay | internal/cronsched/scheduler.go:342-457 | after March 2096 the next 29th of February is that of 2104 |
| Graph.Graph.AddNode | internal/graphdb/graphdb.go:61-90 | adds an isolated node or reports why not |
| Graph.Graph.AddEdge | internal/graphdb/graphdb.go:167-212 | adds one edge to both stores; every refusal leaves the graph as it was |
| Graph.Graph.HasEdge | internal/graphdb/graphdb.go:249-258 | true exactly for the edges of the graph |
| Graph.Graph.RemoveEdge | internal/graphdb/graphdb.go:214-247 | removes the edge from both stores, or reports why not |
| Graph.Graph.RemoveNode | internal/graphdb/graphdb.go:92-135 | removes the node and every edge that touches it from both stores |
| Graph.CutStores | internal/graphdb/graphdb.go:117-135 | filtering one list keeps a store the exact listing of the remaining edges |
| Dijkstra.NoShortcut | internal/graphdb/graphdb.go:512-536 | once the queue is settled no walk beats the distance of its end, stale entries or not |
| Dijkstra.ShortestPath | internal/graphdb/graphdb.go:482-554 | a found path is a walk whose weights sum to the result and none is lighter; no path is reported exactly when every walk weighs 1e18 or more; the walk back over prev ends also with zero weights |
| Dijkstra.ReachableButNoPath | internal/graphdb/graphdb.go:482-554 | a graph with one edge, of weight 1e18, whose end is reported as having no path |
| Traversal.BFS | internal/graphdb/graphdb.go:357-397 | returns exactly the nodes within maxDepth hops, each once, in order of their distance |
| RollingHash.Grows | internal/datadedup/chunker.go:107-120 | appending in uint64 gives the hash of the longer window, without overflow |
| RollingHash.Shrinks | internal/datadedup/chunker.go:107-120 | removing the oldest byte in uint64 gives the hash of the rest |
| RollingHash.NoWrap | internal/datadedup/chunker.go:107-120 | the subtraction never wraps |
| RollingHash.KnownHash | internal/datadedup/chunker.go:107-120 | the hash of any four bytes in numbers |
| RollingHash.RollingHash.AppendByte | internal/datadedup/chunker.go:107-120 | the hash is the polynomial, modulo 1000000007, of the last windowSize bytes, whatever the circular buffer held before |
| RollingHash.RollingHash.Reset | internal/datadedup/chunker.go:122-126 | the window is empty again although stale bytes remain |
| Chunker.ContentBasedChunker.FindEnd | internal/datadedup/chunker.go:228-273 | the cut found with the rolling hash is the one of the direct rule on the remaining bytes alone |
| Chunker.ContentBasedChunker.Chunk | internal/datadedup/chunker.go:216-291 | the chunks are the parts of the cut rule, with their offsets and hashes |
| Chunker.PartsRebuild | internal/datadedup/chunker.go:216-291 | the chunks concatenate to the data |
| Chunker.PartAt | internal/datadedup/chunker.go:228-273 | every chunk is at most the maximum long and all but the last at least the minimum |
| Chunker.PartsFromCut | internal/datadedup/chunker.go:216-291 | chunking from any cut is chunking that suffix alone |
| Chunker.Resynchronises | internal/datadedup/chunker.go:216-291 | two inputs that agree from a common cut have the same chunks from there on |
| Chunker.MaskedMeans | internal/datadedup/chunker.go:206-214 | the test against the mask asks for the last 8, 10 or 13 bits to be zero, by the minimum size |
| IndexFile.ReadsEntry | internal/datadedup/persistence.go:477-488 | an encoded entry reads back wherever it stands, cut to its 32-bit length, if and only if that is at most 1024 |
| IndexFile.HeaderLayout | internal/datadedup/persistence.go:52-152 | the sixteen bytes of a header with a count below 256 |
| IndexFile.ImageSealed | internal/datadedup/persistence.go:52-152 | the file of any list of short fingerprints passes every check of a load and holds exactly them |
| IndexFile.Load | internal/datadedup/persistence.go:161-270 | succeeds exactly on sealed files and returns what they hold; reports corruption exactly of files without the shape, and a mismatch exactly of shaped ones that are not sealed |
| IndexLayout.SealedExactly | internal/datadedup/persistence.go:161-270 | a file is sealed if and only if it is, byte by byte, the magic number and version, a count, entries of which as many are fingerprints, and a checksum in hexadecimal of the header and the digest of those entries, with which a stored digest agrees; what it holds are their texts |
| IndexFile.SameChecksum | internal/datadedup/persistence.go:244-267 | two files that load and carry one checksum hold the same fingerprints, unless the hash collides on their very bytes |
| IndexFile.AppendBytes | internal/datadedup/persistence.go:283-459 | a fingerprint read before anything refused is found and the bytes stay; otherwise the file is refused if and only if it holds an entry too long, and else rewriting the tail in place gives byte for byte the file a save of the longer list would write |
| IndexFile.LongerImage | internal/datadedup/persistence.go:375-453 | the header, the kept entries and the new tail are the file of the longer list |
| IndexFile.PersistIndex.SaveIndex | internal/datadedup/persistence.go:52-152 | the file holds exactly the given set, in whatever order the map is walked |
| IndexFile.PersistIndex.LoadIndex | internal/datadedup/persistence.go:154-270 | returns exactly the set on file if and only if all its fingerprints are short |
| IndexFile.PersistIndex.AppendFingerprint | internal/datadedup/persistence.go:272-281 | created if it was missing; otherwise the file is as AppendBytes says, and holds the union when all fingerprints are short |
| IndexFile.PersistIndex.SaveThenLoad | internal/datadedup/persistence.go:52-270 | what was saved is loaded again if and only if no fingerprint exceeds 1024 bytes |
| IndexFile.PersistIndex.Replay | internal/datadedup/persistence.go:45-459 | after any saves and appends a load returns exactly the set written |
| FullText.PositionsAre | internal/fulltext/engine.go:76-103 | a posting lists exactly the ascending positions of its term |
| FullText.TermAdded | internal/fulltext/engine.go:76-103 | recording one more occurrence keeps the index exact for the text so far |
| FullText.RemoveTerm | internal/fulltext/engine.go:126-149 | striking one term of a document keeps the index exact for the rest |
| FullText.CheckPhraseMatch | internal/fulltext/engine.go:519-547 | true exactly when there are two lists or more and some start lines up with every one |
| FullText.PhraseFound | internal/fulltext/engine.go:519-547 | position lists line up exactly when the text contains the phrase contiguously |
| FullText.Narrow | internal/fulltext/engine.go:433-442 | the candidates left are exactly those with one more term, each with its positions added |
| FullText.Engine.AddDocument | internal/fulltext/engine.go:240-278 | stores the tokens and keeps every posting exact; each refusal in its order |
| FullText.Engine.DeleteDocument | internal/fulltext/engine.go:280-296 | forgets the document everywhere and keeps every other posting exact |
| FullText.Engine.SearchPhrase | internal/fulltext/engine.go:398-517 | returns exactly the documents whose token list contains the phrase contiguously |
| DnsWire.DecodeName | internal/dnsresolver/dnsresolver.go:849-906 | on any bytes it ends, reads in bounds, and gives the name that RFC 1035 section 4.1.4 defines, with at most ten pointers, and where it ends in place |
| DnsWire.EncodeQuestion | internal/dnsresolver/dnsresolver.go:696-718 | refuses exactly the domains with an empty or over-long label; otherwise writes labels, type and class |
| DnsWire.DecodesEncoded | internal/dnsresolver/dnsresolver.go:849-906 | encoded labels decode to themselves wherever they stand |
| DnsWire.QuestionRoundTrip | internal/dnsresolver/dnsresolver.go:696-718 | decoding an encoded question gives the trimmed domain and the offset of its type field |
| DnsWire.CompressedName | internal/dnsresolver/dnsresolver.go:871-888 | labels that end in a pointer spell those labels followed by what is spelled at the pointer, through one pointer more, and end after it |
| DnsWire.ReadExactly | internal/dnsresolver/dnsresolver.go:849-906 | the name read at an offset is the one spelled there through at most ten pointers, and nothing is read if and only if none is |
| DnsWire.FewerJumps | internal/dnsresolver/dnsresolver.go:875-877 | the jump limit only ever refuses names; it never changes one |
| DnsWire.ParseRR | internal/dnsresolver/dnsresolver.go:801-847 | gives the record at the offset if it lies wholly inside the message, and nothing otherwise |
| DnsWire.ParseRRs | internal/dnsresolver/dnsresolver.go:788-799 | gives all of the counted records or nothing |
| DnsWire.ParseResponse | internal/dnsresolver/dnsresolver.go:720-786 | succeeds exactly on messages with the expected id whose counted records all fit, and returns them with the reply code |
| DnsMessage.FormReads | internal/dnsresolver/dnsresolver.go:849-906 | labels that end in a zero or in a pointer to an earlier name read as the whole name wherever they stand |
| DnsMessage.MessageReads | internal/dnsresolver/dnsresolver.go:720-847 | every message laid out as sections 3.2.1, 4.1 and 4.1.4 of RFC 1035 say, compressed or not, parses to exactly the records sent |
| DnsMessage.SampleReads | internal/dnsresolver/dnsresolver.go:720-847 | a reply of 35 bytes with an address record, byte by byte, and the record read of it |
| DnsMessage.QuestionIsTarget | internal/dnsresolver/dnsresolver.go:871-888 | the customary pointer to offset 12 stands for the name of the first question |
| Barrier.New | internal/barrier/barrier.go:40-56 | refuses exactly sizes of zero or less; otherwise nobody waits and nobody has arrived |
| Barrier.Barrier.Arrive | internal/barrier/barrier.go:90-114 | waits, releases exactly at the last arrival of the generation however many timed out, or is refused when broken; arrived = waiting = waiters stays below what is needed |
| Barrier.Barrier.Transition | internal/barrier/barrier.go:58-70 | every waiter moves to the release, for good, and a new generation starts at zero |
| Barrier.Barrier.Deliver | internal/barrier/barrier.go:72-88 | a released waiter gets its release's outcome, and had nothing before |
| Barrier.SameAnswer | internal/barrier/barrier.go:72-88 | in every valid state, waiters of one release that have their answer have the same, the callback's |
| Barrier.Barrier.Fire | internal/barrier/barrier.go:118-149 | a timeout of a waiter of this generation removes and answers it; any other timeout does nothing; it never releases |
| Barrier.Barrier.Break | internal/barrier/barrier.go:188-204 | every waiter gets the broken error, once |
| Barrier.Barrier.Reset | internal/barrier/barrier.go:163-186 | refused while anyone waits or for a bad size; otherwise counts start again |
| Barrier.Barrier.ForceReset | internal/barrier/barrier.go:206-232 | every waiter gets the reset error once and counts start again; a bad size changes nothing |
| Barrier.ReleaseBalances | internal/barrier/barrier.go:58-70 | no waiter is lost or released twice |
| Barrier.Settles | internal/barrier/barrier.go:131-141 | answering one waiter keeps every id in exactly one place |
| ChainHash.HashRing.AddNode | internal/chainhash/chainhash.go:51-87 | every position the node hashes to is its own afterwards, and no other changes; striking them again gives the old ring if and only if none was another node's; without collisions every virtual node owns its position |
| ChainHash.HashRing.RemoveNode | internal/chainhash/chainhash.go:89-115 | strikes exactly the node from the ring if and only if another node owns none of the positions it hashes to |
| ChainHash.HashRing.GetNode | internal/chainhash/chainhash.go:160-178 | the owner of the least position not below the hash of the key, or of the least of all when there is none, also when a collision left a position on the ring twice |
| ChainHash.HashRing.GetNodes | internal/chainhash/chainhash.go:180-216 | as many different nodes as asked for and standing, nearest first: no node left out has a position sooner, clockwise from the hash of the key, than one listed; the whole order lists every node if and only if each owns a position, as without collisions |
| ChainHash.SoonerIsNearer | internal/chainhash/chainhash.go:160-216 | which of two positions comes sooner is the order of the distances from the hash modulo 2^64 |
| ChainHash.PreferenceOrder | internal/chainhash/chainhash.go:180-216 | a preference order is by the distance of each node's nearest position |
| ChainHash.AllPreferred | internal/chainhash/chainhash.go:180-216 | a preference order holds each node of the ring exactly once if and only if every node owns a position |
| ChainHash.RemovalStrikes | internal/chainhash/chainhash.go:89-115 | removing a node strikes it from every key's preference order and leaves the rest in order; adding is the inverse |
| ChainHash.OnlyItsKeysMove | internal/chainhash/chainhash.go:89-115 | a key moves only if its node was the one removed |
| ChainHash.SqueezePreference | internal/chainhash/chainhash.go:71-84 | a position that collisions list twice on the ring changes no preference order |
| ChainHash.CollisionLoses | internal/chainhash/chainhash.go:71-108 | with two nodes on one position, adding the second and removing it again takes the first off the ring |
| Graceful.StepKeeps | internal/graceful/graceful.go:260-290 | under every interleaving the counter equals the callers inside, and zero seen after the stop stays true of the admitted |
| Graceful.Drained | internal/graceful/graceful.go:497-519 | once the drain has seen zero, no admitted request is outstanding then or ever after |
| Graceful.NeverUndercounted | internal/graceful/graceful.go:260-290 | at no time are more requests served than counted |
| Graceful.RefusedOnlyAfter | internal/graceful/graceful.go:260-286 | a caller is refused only if the manager stopped accepting or running before |
| Graceful.AnsweredAlone | internal/graceful/graceful.go:260-286 | a caller that nobody disturbs is admitted and counted while the manager is open, and otherwise refused and not counted |
| Graceful.NoneAfterStop | internal/graceful/graceful.go:260-286 | after the stop, under every interleaving, nobody is admitted who was not before |
| Graceful.PollSees | internal/graceful/graceful.go:497-519 | a look at the counter sees zero exactly when no caller is inside |

## Left out

- Apply.DiffThenApply: two empty texts are excluded because `Diff` refuses them, and so in PatchText.GenerateThenApply.
- Apply.ApplyPatchDirect: requires what keeps the Go code from panicking, that a hunk which does not fit has no negative old count; the text of hunks that go back is not specified.
- PatchText.GenerateThenApply: the condition on names and lines is sufficient only; some names with a newline are harmless.
- Merge.ThreeWayMerge: of two changes with one start and one text but different ends, which is kept is not specified; it depends on the sort. Conflict markers are not rendered.
- Cron.NextTime: for years further away than its condition allows but less than 31622400 years, whether there is an error is not specified.
- Cron.NextTimes: requires a count that is not negative; the Go code panics on others.
- CronFields.MatchesMeans: years outside the range of the parser are not expanded.
- RedlockRollback.NothingLeftBehind: a stopped node keeps what it held, because the Go code refuses every call on it.
- Cron.NextTimeWithConfig: requires positive steps, which `internal/cronsched/parser.go:263-265` establishes; parsing, `CronField.Next`, time zones with daylight saving and descriptions are not modelled.
- Redlock.RedlockSafety: assumes distinct node ids, one token per acquisition, one ttl, and no ForceUnlock or Clear; the bound on late stamps is treated exactly in RedlockLimits.SafeExactly.
- IndexFile.PersistIndex.AppendFingerprint: speaks of files this package wrote; index values are all true, and counts stay below 2^64.
- ChainHash.HashRing.RemoveNode: weight updates and migration estimates are not modelled.
- Decimal.ScanPrint: of the white space `fmt.Sscanf` skips, only blanks are modelled.
- FullText.Engine.AddDocument: the tokenizer is a parameter; languages, scores, ranking and single-term search are not modelled.
- DnsWire.ParseRR: addresses and raw data stay bytes instead of text.
- BPlusIterator.Iterator.Prev: requires a place not beyond the end of the node, where the Go code panics.
- Barrier.Barrier.Arrive: generation and waiter ids do not wrap at 2^64; timers and channels are steps; CyclicBarrier adds only a round counter.
- Dijkstra.ShortestPath: weights are exact numbers, not float64, and the binary heap is any least element of the queue.
- Chunker.ContentBasedChunker.Chunk: hash functions are parameters that do not fail; the fixed-size chunker is not modelled.
- Graph.Graph.AddEdge: properties of nodes and edges are not modelled; depth-first search is left out, because with its depth limit it is not complete.
- Graceful.StepKeeps: callbacks, deadlines, signals and reports are not modelled.
- BPlusTree.Tree.Insert: keys are reals into which Go's strings embed (GoStrings.RankOrder); the tree's printer is left out.
- Mutexes, goroutines, files, sockets, clocks and randomness appear only as steps or parameters.
- The other packages (gateways, caches, registries, rate limits, metrics and the like) would add members without hard properties.
