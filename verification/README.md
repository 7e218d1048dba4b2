# filesentry: a verified model

filesentry watches directories for changed files. It keeps a picture of the directory
tree in memory, looks again at whatever the operating system says has changed, and
reports the differences, coalesced, once things have settled. If a kernel queue
overflows it crawls everything again. Its promise is that nothing is missed.

This project models the parts that promise rests on and proves what they do.

* `Paths`: path buffers, the byte comparator, `is_parent_of`, `parent`, `push`, `join`.
* `Pending`: the queue of changed paths. `Events`: the debouncer.
* `TreeModel`, `Deletion`: nodes, child lists and index as a value; the forest invariant;
  every operation that is not a crawl; what deleting a subtree reaches.
* `CrawlModel`, `CrawlStructure`, `CrawlDiscipline`, `CrawlClaims`, `CrawlReport`,
  `CrawlTheorem`, `CrawlResult`, `Filters`: the crawl as a machine over a pre-order
  listing, its stack discipline, and what it reports, path by path.
* `Order`: in which order events are reported.
* `Adding`, `FirstCrawl`: what adding a path or a root comes to, and what the silent first
  crawl of a new root finds.
* `Runs`, `Streams`, `Legality`, `Linking`: runs of tree operations: the invariant, exactly
  when events can be merged, and which nodes are linked.
* `FileTree`: the tree as the object it is, updated in place with the shared work stack;
  every method is proved to compute the corresponding function.
* `Transactions`, `Changed`, `Skipping`, `Pickup`: applying a drained batch, what each change
  does at its own path and asks to watch, why only adjacent entries need a look, what becomes
  of the changes that are skipped, and what one change does for a directory that is new.
* `Recrawl`, `Resync`: crawling several roots in turn, nested or not, and what a whole recrawl
  of the worker achieves while the snapshot stays as it is.
* `Roots`, `WorkerMachine`, `RootRuns`, `WorkerLoop`: the root list, the worker and the backends
  as a state machine with arbitrary interleaving, what adding a root does to it and what the
  backend is asked to watch, and the worker object whose methods take its steps.
* `Records`: the parser for change-record buffers.
* `Limits`: concrete inputs on which the code does less than one might expect.

## How to read it

A path is a list of names; `Paths` connects lists to bytes. The file system is a map
from paths to what they are (`Snapshot`), fixed during one change or crawl and free to
differ from one to the next. A directory walk is any pre-order listing of the snapshot.
A filter is any predicate. Emitting an event and asking for a watch append to a sequence.

Nothing is assumed about a tree but the *forest* invariant, which every run keeps. `Visible`
is what a crawl sees: a snapshot entry in its reach that neither is ignored nor lies below
an ignored directory strictly inside the crawled root, which itself is not tested. `Swept`
is what a crawl gets at without seeing it: what hangs, by child lists through live
directories, from a directory it crawls, or from a former directory that is now neither.
A tree is *coherent* below a root if every known path there is linked from its parent and
no live path has a parent that is not a directory; then everything unseen is swept, except
below a file. `Linking` shows exactly when the first half holds in a run.

A node is *in step* if everything visible from it is known as the snapshot has it. It is
*quiet* if a crawl of it gets at no known file unseen. Roots are *steady* if what each sees
makes no difference any more and they are covered by each other as far as they see each
other; a recrawl leaves them so.

Events are *legal* if for every path they lead from "is a file" before to "is a file"
after. A *forgotten leaf* is a known file without a child list that is gone from a
directory that is crawled and lists it: its deletion is reported, but the node keeps its
kind.

Specification and object are two things: a pure function says what a method computes,
the method is proved equal to it, and lemmas about the function say what that means.
Every lemma states its own induction (automatic induction is off), and long proofs hide
definitions they only hand on.

## What the code does that its documentation does not say

* A vanished file that never had a child list is reported by every crawl until it
  returns, because the deletion returns before marking it (src/tree.rs:435-438). If it is
  back before the next delivery, it counts as modified: the debouncer holds a deletion,
  reaches the arm it logs as impossible, and delivers that an existing file is gone
  (src/events.rs:67-73).
* Files below a directory that became a file are not reported (src/tree.rs:277-294).
* A root added before its parent stays unlinked, so the parent's crawl cannot see it
  vanish (src/tree.rs:363-381).
* During the first crawl of a root anything that cannot be added makes the rest of its
  directory go unnoticed, unless it is a directory: a socket, pipe or link, but also a file
  that is known already (src/tree.rs:592-594).
* Watching a root again, now recursively, lists it twice and removes none of the roots
  it covers (src/worker.rs:81-104).
* Changes below one that asks to recurse are skipped, on the ground that the directory is
  looked at as a whole (src/tree.rs:213-217). A skipped change is lost if and only if it makes
  a difference and the change above neither sees its path in the crawl it makes nor gets at
  its node: because that crawl is not recursive, or there is none, as for a directory that
  became a file or is ignored.
* A root below a directory that is ignored to a root above it is kept on purpose
  (src/worker.rs:85-103), but the crawl of the root above deletes what hangs there. So a
  recrawl of an unchanged snapshot reports files in it as gone and as new again.
* A root that gave way to a recursive root above it stays looked after only as long as the
  filter is one and the same. If that other root gives way in turn to one whose filter hides
  the first, it is neither listed nor looked at any more (src/worker.rs:85-102).
* A Tempfile that a consumer feeds into a second debouncer can reach the impossible arm
  too, there with the right outcome (src/events.rs:67-73).

Each has the exact condition as a theorem below (for replaced roots: not with one filter), and
concrete inputs in `Limits`.

## Model

| member | source | states |
|---|---|---|
| `Paths.Compare` | src/path.rs:135-146 | The comparator's single pass equals the lexicographic order of ranked bytes after dropping a closing NUL, for all byte strings. |
| `Paths.ComparatorIsComponentOrder` | src/path.rs:135-156 | On separator-joined names the byte order gives the same answer as comparing the component lists lexicographically, names bytewise. |
| `Paths.BuffersCompareAsPaths` | src/path.rs:128-166 | Two path buffers compare as their component lists, whether or not either still carries its terminator. |
| `Paths.ComparatorTotalOrder` | src/path.rs:128-146 | A strict total order on all byte strings: equal only if identical, antisymmetric, transitive. |
| `Paths.BytesInjective` | src/path.rs:112-117 | Byte equality of paths is equality of component lists. |
| `Paths.AncestorFirst` | src/path.rs:128-133 | A directory sorts before everything below it. |
| `Paths.DescendantsContiguous` | src/path.rs:128-133 | A path together with all its descendants is one contiguous run of the order. |
| `Paths.LongerSiblingLast` | src/path.rs:128-133 | A sibling whose name extends a directory's name sorts after all that directory's descendants. |
| `Paths.IsParentOfMeansAncestor` | src/path.rs:100-103 | The prefix-and-separator test on buffers holds exactly for strict ancestors. |
| `Paths.Parent` | src/path.rs:36-43 | Finds the last separator, and fails exactly if there is none. |
| `Paths.ParentMeansDropLast` | src/path.rs:36-43 | What is found is the path without its last component. |
| `Paths.PathBuf.Push` | src/path.rs:217-235 | In-place push: the terminator is replaced, a separator is added unless the source starts with one. |
| `Paths.PushedIsAppend` | src/path.rs:217-235 | Pushing a name onto a well-formed buffer gives the well-formed buffer of the path with one more component. |
| `Paths.PushedPathIsJoined` | src/path.rs:173-178 | Pushing a whole path, absolute or with its leading separator left out, onto an empty buffer or that of another path gives the buffer of the one after the other; so a buffer built from a walked path is that path's. |
| `Paths.Join` | src/path.rs:45-56 | Joining builds a new buffer, equal to pushing onto a copy. |
| `Events.EventDebouncer.Add` | src/events.rs:42-81 | Table and list stay in bijection, the list is the coalesced history, and the error arm is reported exactly when it is taken. |
| `Events.EventDebouncer.Take` | src/events.rs:83-88 | Hands out the coalesced history and starts a new one. |
| `Events.EventDebouncer.IsEmpty` | src/events.rs:90-92 | Empty exactly if nothing is held back. |
| `Events.CoalesceShape` | src/events.rs:42-81 | One entry per path, in first-seen order, each the fold of its own path's stream only. |
| `Events.FoldIs` | src/events.rs:50-73 | That fold, for any stream whatever, legal or not, is the net change between what the stream says about before and about now. |
| `Events.FoldIsNet` | src/events.rs:50-73 | The merge table folds every legal stream to its net effect. |
| `Events.NetEffect` | src/events.rs:42-88 | For any interleaving, a path whose stream leads from `was` to `now` is stored as Create, Tempfile, Modified or Delete exactly by (was, now). |
| `Events.ErrorArmExactly` | src/events.rs:67-73 | On legal streams the impossible arm is reached if and only if a Tempfile arrives for a path that already has an event. |
| `Events.LegalAlwaysMerges` | src/events.rs:67-73 | Without Tempfiles in the input, legal histories never reach it. |
| `Events.BatchSplittingInvisible` | src/tests.rs:58-66 | However a legal history is cut into batches, coalescing the delivered batches again gives the same sequence as coalescing everything at once. |
| `Pending.PendingChanges.Add` | src/pending.rs:129-148 | Keeps index table and vector in bijection and refines the map update; does nothing under a raised recrawl flag. |
| `Pending.PendingChanges.Recrawl` | src/pending.rs:123-127 | Empties the queue and raises the flag. |
| `Pending.PendingChanges.AddWatcher` | src/pending.rs:150-160 | Adds with the origin bit set. |
| `Pending.PendingChanges.TakeRecrawl` | src/pending.rs:162-164 | Reads and lowers the flag, nothing else. |
| `Pending.PendingChanges.IsEmpty` | src/pending.rs:104-106 | Empty exactly if no path is pending and the flag is down. |
| `Pending.PendingChanges.Swap` | src/pending.rs:35-61 | The two queues trade contents. |
| `Pending.PendingChanges.Drain` | src/pending.rs:166-171 | Returns a strictly sorted listing of exactly the pending map and leaves the queue empty. |
| `Pending.DrainUnique` | src/pending.rs:166-171 | Only one such listing exists, so the unstable sort cannot be observed. |
| `Pending.QueueIsUnionMap` | src/pending.rs:79-148 | After any run of reports and overflows the queue is the map from reported paths to the union of their flags, or empty with the flag up. |
| `Pending.OriginIsOfFirst` | src/pending.rs:129-148 | Changes of one path with any flags are merged into one entry that has all of them, but for the origin bit, which is that of the first. |
| `TreeModel.ApplyKeepsForest` | src/tree.rs:239-349 | Applying any change to any forest against any snapshot gives a forest: index bijective, ids owned once, children below their owner and later in the arena, no duplicates. |
| `TreeModel.AddKeepsForest` | src/tree.rs:351-425 | So does adding a path or a root, including the roll-back branches. |
| `TreeModel.OneListEntry` | src/tree.rs:229-236 | In a forest every node stands at most once in all child lists together. |
| `Deletion.DeleteRecEffect` | src/tree.rs:429-456 | Path by path: with a child list, the node and exactly the entries reached through live directories end deleted, each live file among them reported once, everything else untouched; without one, nothing happens at all. |
| `Deletion.DeleteRecClears` | src/tree.rs:429-456 | In a coherent subtree nothing below stays live and every live file below is reported. |
| `Order.DeleteRecInOrder` | src/tree.rs:429-456 | Deleting a subtree reports in pre-order: nothing before what lies above it or in an earlier child, at any depth, and nothing but what hangs from the node. |
| `Order.FrameInOrder` | src/tree.rs:514-530 | Finishing a frame appends what its sweep reports, in pre-order of its child list. |
| `CrawlDiscipline.DisciplineAlways` | src/tree.rs:472-554 | At every entry of every crawl, recursive or not, whatever the tree claims: forest intact, frame depths strictly increasing, every frame has a child list, and below a frame the flag marks exactly the children not visited yet. |
| `CrawlDiscipline.OnlyAncestorsRemain` | src/tree.rs:514-530 | For both kinds of crawl: once finished frames are popped, the stack holds only proper ancestors of the entry being visited. |
| `CrawlDiscipline.EmptyAtEnd` | src/tree.rs:543-554 | A crawl leaves the shared stack empty. |
| `CrawlResult.CrawlReports` | src/tree.rs:460-555 | For every tree, snapshot, filter and listing, recursive or not: at each visible path the crawl reports the difference from what was known, at most one event; at each path it does not see but gets at, the deletion of a known file; and nothing anywhere else. |
| `CrawlResult.CrawlExactIff` | src/tree.rs:460-555 | For every tree: the crawl is an exact diff of all that is in its reach (its subtree, or one level of it) if and only if it gets at every known file there that it does not see. |
| `CrawlResult.CoherentExactIff` | src/tree.rs:460-555 | For a coherent tree and a recursive crawl: an exact diff of the subtree if and only if no known file lies below a visible regular file. |
| `CrawlResult.CoherentCrawl` | src/tree.rs:460-555 | Of a coherent tree it is an exact diff except below visible files (and, if not recursive, below visible directories), and it leaves the tree coherent for the next crawl. |
| `CrawlResult.CrawlResynchronises` | src/tree.rs:472-541 | Afterwards each visible file or directory has a node with the snapshot's kind, time, size and inode, and covered if the crawl is recursive; exactly the root and, if recursive, the visible directories were watched; the stack is empty. |
| `CrawlResult.SecondCrawlSilentIff` | src/tree.rs:435-438 | For every tree: a second crawl of the same snapshot is silent if and only if the first met no forgotten leaf. |
| `CrawlTheorem.CrawlLeaves` | src/tree.rs:460-555 | The kind in which a crawl leaves every node of any tree: as seen; deleted where it got at it unseen, but for the leaf that the sweep forgets; unchanged everywhere else. |
| `Order.VisitedInOrder` | src/tree.rs:487-541 | A crawl of any tree reports what it sees in the order of its pruned walk. |
| `Order.SweptInOrder` | src/tree.rs:514-553 | What it finds gone from a directory it crawls, or from below that, it reports after everything that it sees there. |
| `Filters.IgnorePathRec` | src/config.rs:30-46 | The loop is true exactly if the path, or any ancestor read as a directory, is ignored. |
| `Filters.PruningIsExact` | src/tree.rs:495-503 | Whatever the filter, a pruning walk visits a pre-order listing of exactly the entries in its reach that are not ignored themselves nor by a directory strictly between them and the root. |
| `Filters.PruningIsTheRecursiveFilter` | src/tree.rs:498-503 | If the root is not ignored, these are exactly the entries that the recursive filter does not ignore. |
| `Adding.AddIs` | src/tree.rs:351-425 | For every tree, adding a path or a root: a known node is handed back exactly if the watch is recursive, the node not covered yet and, for a root, a directory, and then nothing but its coverage changes; a new one exactly if a file or directory is there and the parent is known or it is a root, and it has the snapshot's kind, inode and the coverage asked for, its place at the end of its parent's list, and nothing else changes. |
| `FirstCrawl.FirstCrawlFinds` | src/tree.rs:557-597 | After the first crawl of any known root, recursive or not, in any tree: a path is known if it was, or if it is visible, can be added, and does not come behind a visible entry that cannot (a directory above it, or something else in a directory it lies in); kinds, inodes and coverage are exactly as that says; and if it is recursive, exactly the directories it so finds are handed to `add_watch`. |
| `FirstCrawl.FirstCrawlCompleteIff` | src/tree.rs:592-594 | Nothing visible is missed by it if and only if no new visible entry comes behind one that cannot be added. |
| `Runs.After` | src/tree.rs:194-596 | The forest invariant holds after every run of adding, first crawls, changes, crawls and deliveries. |
| `Runs.ApplyLegal` | src/tree.rs:261-347 | Every change emits, for every path, events that lead from its kind before to its kind after. |
| `Runs.SweepOneLegalIff` | src/tree.rs:519-529 | Sweeping one child does so if and only if it is not a flagged file without a child list. |
| `Runs.CrawlLegal` | src/tree.rs:460-555 | A crawl, recursive or not, of any node of any forest does so if and only if none of its sweeps meets such a file. |
| `Runs.CrawlLegalAt` | src/tree.rs:460-555 | The same path by path: a path's events fit if and only if no sweep forgets that path. |
| `Runs.RunsAreExplained` | src/tree.rs:448-454 | In every run, path by path: the events held back explain how the path got from the last delivery to now if and only if no crawl since then forgot it. |
| `Runs.ArmIsReachedIff` | src/events.rs:67-73 | In every run the impossible arm is reached exactly by a modification of a path last held as deleted, and only after a crawl since the last delivery forgot that path. |
| `Runs.DeliveryIsNetChange` | src/events.rs:42-88 | What is delivered for a path is its net change unless such a crawl forgot it; where it is wrong about the file being there, it says that one is gone which the tree still holds. |
| `Streams.ArmOfLoose` | src/events.rs:67-73 | The arm's condition for any stream in which deletions may be reported of files that stay. |
| `Streams.StoredIs` | src/events.rs:42-81 | For any history: what is held for a path is the net change of its stream; the impossible arm is reached exactly by a creation of what is there, a modification of what is not, or a Tempfile, of a path held already, and then nothing held changes. |
| `Legality.CrawlLegalIff` | src/tree.rs:519-529 | For every tree, what a crawl forgets can be told beforehand: exactly the forgotten leaves; so its events are legal if and only if there is none. |
| `Linking.LinkedIffParentFirst` | src/tree.rs:363-381 | In every run a known path is linked from its known parent if and only if the parent became known first. |
| `FileTree.FileTree.ReserveDir` | src/tree.rs:222-227 | The in-place method computes the modelled tree and returns the new list's id. |
| `FileTree.FileTree.AddChild` | src/tree.rs:229-236 | Appends to the owner's list, making one if there is none. |
| `FileTree.FileTree.DeleteRec` | src/tree.rs:429-456 | The explicit-stack loop terminates, restores whatever was on the shared stack, and computes the recursive deletion, events in order. |
| `FileTree.FileTree.ApplyChange` | src/tree.rs:239-349 | The method on arena, index and lists computes the modelled change, result and events. |
| `FileTree.FileTree.Add` | src/tree.rs:351-425 | The method, index entry first and rolled back on failure, computes the modelled addition. |
| `FileTree.FileTree.SweepChildren` | src/tree.rs:519-529 | The sweep over a copied child list, with deletion on the same stack, computes the modelled sweep. |
| `FileTree.FileTree.PopFrames` | src/tree.rs:514-530 | The pop loop finishes exactly the frames that are deep enough. |
| `FileTree.FileTree.Crawl` | src/tree.rs:460-555 | The whole crawl loop computes the modelled crawl: tree, stack, events and watches. |
| `FileTree.FileTree.CrawlRoot` | src/tree.rs:557-597 | The first crawl of a root, depth-limited if not recursive, computes the modelled one and emits nothing. |
| `Changed.ChangeIs` | src/tree.rs:239-349 | For every tree, snapshot and flags: the events at the changed path itself (created, deleted, or modified if a backend saw it or inode, time or size differ), the node left there, whether what lies below is to be looked at, and that all other nodes stay as they are but for what hung from a directory that is gone. |
| `Changed.CrawlsIff` | src/tree.rs:204-211 | A change is followed by a crawl exactly if it asks for one, a directory not ignored itself is there, and the tree knows it or its parent. |
| `Changed.OneIs` | src/tree.rs:202-219 | A change with its crawl reports at its own path what the change alone does, and asks to watch exactly the directory, if it is crawled, and every directory that a recursive crawl sees. |
| `Changed.OneLeaves` | src/tree.rs:202-219 | Afterwards everything that the crawl sees is known as the snapshot has it. |
| `Transactions.ApplyTransaction` | src/tree.rs:194-220 | Drains the queue in path order and processes it exactly as the recursive specification; the work stack ends empty. |
| `Transactions.SkipBelow` | src/tree.rs:213-217 | Skips the adjacent changes below a directory and stops at the first that is not. |
| `Transactions.RunIsMaximal` | src/tree.rs:213-217 | In path order nothing below the directory comes after the first change that is not, so looking at adjacent ones is enough. |
| `Transactions.SkippingIsExact` | src/tree.rs:202-219 | Which changes are skipped, and no more: every drained change is taken once and in order, and it is skipped if and only if an earlier processed change that asked to recurse lies above it. |
| `Skipping.BelowIsReported` | src/tree.rs:202-219 | One change, at every path below its own, for every tree, snapshot and filter: where its crawl sees something, the difference; where it gets at a node unseen, in the crawl or by finding the directory gone, the deletion; nothing anywhere else. |
| `Skipping.ReportedIff` | src/tree.rs:213-217 | A path below a change that recurses is reported as the difference to be found there if and only if there is none, or the change sees the path or gets at its node. |
| `Skipping.SkippedIsUnder` | src/tree.rs:213-217 | Over a whole transaction each skipped change lies below a processed one that recursed, finds its path as it was at the start, and is reported by that one alone. |
| `Skipping.SkippedIsReportedIff` | src/tree.rs:213-217 | So a skipped change is reported as the difference it makes if and only if it makes none, or the change above sees it or gets at its node. |
| `Changed.ProcessedIsReported` | src/tree.rs:202-219 | A change that is not skipped is reported at its own path exactly as it would be alone, and no other change of the batch reports anything there. |
| `Changed.TransactionAsks` | src/tree.rs:202-219 | A transaction asks to watch exactly what its processed changes ask for, each in the tree it comes to. |
| `Changed.TransactionInOrder` | src/tree.rs:202-219 | What is reported at the path of a processed change comes before all that is reported at the paths of later ones, skipped or not. |
| `Pickup.NewDirectoryIsPickedUp` | src/tree.rs:194-220 | One change that reports a new directory, not ignored itself, to be covered recursively is enough, whatever lies above it: everything visible in it becomes known, covered and watched, and every visible file in it is reported created exactly once. |
| `Roots.RootList.RemoveCovered` | src/worker.rs:85-102 | The in-place removal loop with its shrinking bound stays in range and leaves of the stretch exactly the roots that are not covered. |
| `Roots.RootList.Insert` | src/worker.rs:81-104 | Finding the place, removing and inserting in place give the specified list. |
| `Roots.RootIsInserted` | src/worker.rs:81-104 | That list is the old one, less the roots the new recursive root covers, with the new root once in its place; nothing is removed if its path was listed already. |
| `Roots.OrderIsKept` | src/worker.rs:81-104 | It stays in path order whatever root is added. |
| `Roots.WithRootMembers` | src/worker.rs:84-103 | Member by member: only non-ignored strict descendants go, ignored ones stay. |
| `Roots.OverlapRemovedIff` | src/worker.rs:85-103 | No covered root is left if and only if the path was not listed before or there was none. |
| `Roots.DistinctIff` | src/worker.rs:104 | No path is listed twice if and only if it was not listed before. |
| `WorkerMachine.Reach` | src/worker.rs:110-163 | In every state of every interleaving: forest, sound queues, buffer only filled between a swap and the decision, batch sorted, roots in the tree and in order. |
| `WorkerMachine.BufferIsEmptyAtEverySwap` | src/pending.rs:35-61 | No swap ever puts old changes back into the shared queue. |
| `WorkerMachine.NothingIsLost` | src/pending.rs:35-61 | In every interleaving each notified path waits with all its flags in a queue or a batch, or under a raised flag, or was since applied, followed by a recrawl, or skipped below a recursing change. Applying it adds exactly its report, of a file that is still one always a modification; a skip adds exactly what the change above reports there, which is the difference if and only if there is none or that change sees the path or gets at its node. |
| `WorkerMachine.OverflowIsNotLost` | src/pending.rs:123-127 | In every interleaving a recrawl is due after an overflow, or has begun since. |
| `WorkerMachine.RecrawlReachesEveryRoot` | src/worker.rs:129-148 | Between the start of a recrawl and the next wait every listed root is crawled. |
| `WorkerMachine.RecrawlIsDiff` | src/worker.rs:129-148 | In every state that any interleaving reaches, each crawl of a recrawl adds to the events held back, at every path, exactly the difference between that tree and the snapshot, as far as it sees the path or gets at its node. |
| `Resync.RecrawlPutsInStep` | src/worker.rs:129-148 | In every interleaving, while the snapshot stays as it is, a recrawl puts each root it has come to in step and keeps it so during the crawls of the others, nested or not, whatever the tree was before; and it leaves the roots steady. |
| `Resync.RecrawlIsSilentIff` | src/worker.rs:129-148 | From there, another recrawl of that snapshot adds nothing to the events held back if and only if no root gets at a known file unseen. |
| `Resync.RecrawlAsksForAll` | src/worker.rs:136-147 | While it goes on, it has asked the backend to watch every root it has come to and every directory visible from a recursive one. |
| `Recrawl.EachIsInStep` | src/worker.rs:129-148 | The same as `RecrawlPutsInStep` for crawling any known nodes in turn, none above one before it. |
| `Recrawl.SecondRecrawlSilentIff` | src/worker.rs:129-148 | Crawling them all a second time, over any listings of the same snapshot, is silent if and only if none of them gets at a known file unseen in the tree that the first time left. |
| `WorkerMachine.QuietMeansHandled` | src/worker.rs:36-50 | When the worker waits and the shared queue is empty, every notification has been applied or skipped since, with what that is worth (as under `NothingIsLost`), or followed by a complete recrawl. |
| `WorkerMachine.QuietMeansRecrawled` | src/worker.rs:129-148 | And every overflow has been followed by a recrawl that came to every root. |
| `WorkerMachine.BatchesAreNetChanges` | src/worker.rs:117-127 | Over whole worker runs each batch tells every path's net change since the last, unless a sweep forgot the path in between; where it is wrong about a file being there, it says that one is gone which the tree still holds. |
| `WorkerMachine.DeliveredWhenSettled` | src/worker.rs:117-127 | In every interleaving events are handed out only after a wait timed out with nothing shared, and they are those that were held back then. |
| `WorkerMachine.HeldIsDelivered` | src/worker.rs:36-50 | Whatever is held back when the worker waits with nothing shared is handed out by a time-out and a delivery, which change nothing else. |
| `WorkerMachine.BatchesExplainIff` | src/worker.rs:117-127 | In every interleaving the events held back explain a path if and only if no sweep since the last batch forgot it. |
| `WorkerMachine.ImpossibleArmIff` | src/events.rs:67-73 | In every interleaving the debouncer meets an impossible merge exactly at a modification of a path it holds as deleted, and only if a sweep forgot the path since the last batch. |
| `RootRuns.NewRootIs` | src/worker.rs:60-105 | Adding a root in any reachable state: one the tree does not take changes nothing; one the backend refuses leaves its node and is not listed; any other is listed once more, in its place, and path by path the tree is what the first crawl leaves, with the watches asked for exactly. |
| `RootRuns.AcceptedRootsAreTended` | src/worker.rs:81-104 | In every interleaving an accepted root stays listed as asked for, or lies below a listed recursive root; with one filter throughout, below one from which that filter does not hide it. |
| `RootRuns.StepAsks` | src/worker.rs:136-161 | In every reachable state a crawl, a change and every other step ask the backend to watch exactly what the tree asks for, always recursively. |
| `WorkerLoop.Loop.WaitForChanges` | src/worker.rs:36-50 | Waiting settles exactly if the clock ended it, which it does only while nothing is shared, and events are held back; otherwise whatever is shared is taken. Either way it is the machine's step. |
| `WorkerLoop.Loop.WakeUp` | src/pending.rs:53-60 | Taking what is shared is the machine's wake step. |
| `WorkerLoop.Loop.AddNewRoot` | src/worker.rs:60-105 | Adding one root, known, refused or accepted, takes the machine's step for it, whose meaning is `RootRuns.NewRootIs`; the user is told false exactly if the tree takes the root and the backend does not. |
| `WorkerLoop.Loop.WatchAll` | src/worker.rs:141-145 | What the tree asks to watch is passed to the backend in order, recursively. |
| `WorkerLoop.Loop.DeliverBatch` | src/worker.rs:117-127 | Delivering takes the deliver step and hands out the coalesced window. |
| `WorkerLoop.Loop.CrawlRoots` | src/worker.rs:129-148 | The loop over the roots takes one crawl step per root and then the step back to waiting. |
| `WorkerLoop.Loop.Turn` | src/worker.rs:128-161 | A turn that did not settle takes either the steps of a recrawl or those of a transaction. |
| `WorkerLoop.ApplyRestIsTransact` | src/worker.rs:151-161 | The machine's steps for a batch compose to the transaction specification. |
| `Records.HandleRecords` | src/windows.rs:175-212 | For every buffer the loop terminates with all slices in bounds and no overflow of any sum, the guard's included, and adds exactly the notices of the record chain. |
| `Records.HandleRecord` | src/windows.rs:188-204 | One record adds at most one notice to the queue: none if the filter ignores its path or its action is unknown, one with a recursive crawl if a name came or went. |
| `Records.ReadRecord` | src/windows.rs:181-191 | Reading one header and its name stays within the buffer, even if the claimed length does not, and gives the record at that offset. |
| `Records.ChainRoundTrip` | src/windows.rs:166-204 | From a buffer that holds an encoded chain, with any padding and anything after it, the parser recovers actions and UTF-16 names in order. |
| `Records.BufferIsReported` | src/windows.rs:188-200 | An encoded buffer leaves exactly the non-ignored paths of known actions pending, with a recursive crawl exactly where a name came or went. |
| `Limits.FileBelowReplacedDirectoryIsMissed` | src/tree.rs:277-294 | A concrete tree in which a directory has become a file and the file below it is not reported. |
| `Limits.SkippedWithoutCrawl` | src/tree.rs:213-217 | A concrete transaction in which a directory has become a file: the notified deletion of a file below is skipped, nothing is crawled, and the file stays known. |
| `Limits.SkippedBelowShallowCrawl` | src/tree.rs:213-217 | A concrete transaction in which a root that is not recursive is crawled one level deep and the notified deletion further down is skipped and lost. |
| `Limits.IgnoredNestedRootIsNotSilent` | src/worker.rs:85-103 | Two concrete steady roots, one below a directory ignored to the other: a recrawl of the unchanged snapshot reports a file deleted and created. |
| `Limits.ReplacedRootIsHidden` | src/worker.rs:85-102 | Three concrete nested roots added from the inside out, the last with a filter that hides the first: only the last is listed. |
| `Limits.VanishedFileIsReportedTwice` | src/tree.rs:435-438 | A concrete tree in which a vanished file is reported by two crawls in a row. |
| `Limits.ForgottenFileComesBack` | src/tree.rs:435-438 | A concrete run from the empty tree in which a forgotten file is back as another one: the impossible arm is reached and a deletion is delivered for a file that exists. |
| `Limits.NestedRootIsNotLinked` | src/tree.rs:363-381 | A concrete run in which a root added before its parent is never linked. |
| `Limits.FirstCrawlSkipsAfterSpecial` | src/tree.rs:592-594 | A concrete directory in which a special file hides the next file from the first crawl. |
| `Limits.FirstCrawlSkipsAfterKnownFile` | src/tree.rs:592-594 | A concrete run in which a file watched before hides the next file from the first crawl. |
| `Limits.UpgradedRootIsListedTwice` | src/worker.rs:81-104 | A concrete root list in which an upgraded root stands twice and a covered root stays. |
| `Limits.TempfileAfterDelete` | src/events.rs:67-73 | A legal history, as fed by a consumer that coalesces batches again, that reaches the error arm. |

## Left out

- Operating-system backends (src/inotify.rs, src/fsevent.rs, the rest of src/windows.rs): they appear only as steps that push a path or raise the overflow flag; what kernels guarantee is theirs.
- `lstat`, file times and their conversion (src/metadata.rs): a snapshot entry is a kind with abstract time, size and inode; anything but a regular file or directory counts as absent, as in the source.
- Hash tables, reference counts, copy-on-write, capacities and the 32-bit limits of node, directory and event ids: tables are maps and ids are natural numbers.
- `CanonicalPathBuf::pop`, `push_raw` and Windows separators: the path model is the unix form with its closing NUL.
- The bare root directory `/`: its path would end with a separator, and `is_parent_of` does not work for it; every path here has at least one name.
- Real time, the condition variable, memory orderings, poisoned locks, shutdown and the handlers' bodies: a wait may end at any moment, times out only while the shared queue is empty and events are held back, and a stopped worker is a run that ends.
- Errors yielded by the directory walk and its stop at file-system boundaries: the walk is a complete listing of one snapshot.
- Entries that vanish between being listed and being looked at: listing and snapshot agree.
- Recrawls during which the snapshot or the filter changes: each of their crawls is characterised for what it starts from and looks at, the whole only for one snapshot.
- Paths.Parent: the returned bytes are compared with component lists only for well-formed paths.
- Records.HandleRecords: decoding UTF-16 to a name and joining it to the root are a parameter, as the lossy conversion is a library's; byte order is little-endian, as on every Windows target, and an offset fits 64 bits.
- Events.BatchSplittingInvisible: for histories that are legal per path; for others nothing is promised.
- Logging, the disabled-watcher stubs (src/lib.rs) and the example program: no logic of their own.
