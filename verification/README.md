# Verification of the FUSE runtime, its path adapter and the in-memory filesystem

This project models four parts of the repository and proves what they promise.

1. **The node and handle lifetime runtime.** `Nodes` is the inode table: four counts per slot, deferred reclamation,
   reuse through a free list, a generation per reuse. `Handles` is the handle table, whose payloads are lent through
   leases and consumed once. `Runtime` is the step relation of any number of threads, one step per mutex section, with
   the kernel's forgets and the filesystem's own table calls in between; `RuntimeProofs` shows that each step keeps
   one invariant and `RuntimeTheorems` says what the invariant means for every interleaving. `RuntimeSteps` says which
   steps move what, and `RuntimeAnswers` what each operation answers and leaves behind, amid any interleaving.
2. **The path adapter.** `PosixTree` is the file hierarchy of IEEE Std 1003.1-2017 (System Interfaces: link(),
   rename(), rmdir(), unlink()). It is the specification of the wrapped path filesystem, and of what the in-memory
   filesystem implements. `PathNamespace` is the two-way index and the recursive paths, `Enumeration` the directory
   sinks with their rollback, `PathAdapter` the adapter's callbacks over a wrapped tree, `PathMoves` the effect of
   moving a directory, `AdapterAnswers` when each callback succeeds, with what error it fails and what it does, in terms
   of objects instead of paths, and `PathNodeFs` the index, the adapter and the sinks updated in place.
3. **The in-memory filesystem.** `MemoryFs` gives the value of each operation, `MemoryOps` performs it in place, lease
   by lease, on the runtime's table. `MemoryTree`, `MemoryRename` and `MemoryRuns` prove that the nodes stay a tree
   with exact counts, and say when each operation is the one of `PosixTree`; `MemoryContent` says what new nodes hold
   and that they keep it;
   `MemoryFailures` holds the runs that leave the tree. `SparseFile` is file content, `Listing` a
   directory read in pages through the reply buffer.
4. **Codecs.** `FileLock`, `Timestamps`, `XattrNames`.

`Base` holds the shared vocabulary: results, errors, names and the order of a `BTreeMap` of names.

Each object the source updates in place is a class (`NodeTable`, `HandleRecord`, `HandleTable`, `Namespace`,
`PathNodeFs`, `ListingSink`, `MemoryFileSystem`, `FileNode`, `DirBuffer`). Its methods end in the values of functions
on the object's abstract value, and the lemmas are about those functions. `requires` clauses that bound a counter stand
for the source's overflow panics.

## Where the code does less than it promises

Each of these is proved, with the exact condition under which the code does keep the promise.

- `PathNodeFs::rename` returns early when it has never seen the source, and then leaves a destination it has seen bound
  to the wrong object (`PathAdapter.RenameRefinesExactly`, `PathAdapter.UnboundSourceBreaksTheIndex`).
- `Namespace::add_alias` does not clear a previous owner (`PathNamespace.NameLinkedKeepsExactly`). The adapter reaches
  it with a free name only, since the wrapped filesystem refuses to link onto an existing one.
- The in-memory filesystem's `rename` treats a missing new parent as an empty destination
  (`MemoryFailures.MissingParentBreaks`), moves a directory beneath itself (`MemoryFailures.MoveBeneathItselfBreaks`), and
  enters a directory that has been removed but is still in use (`MemoryFailures.RenameIntoRemovedBreaks`);
  `MemoryRename.RenameRefines` has the exact condition.
  `create` and `link` also enter removed directories (`MemoryTree.CreateKeepsExactly`, `MemoryTree.LinkRefines`,
  `MemoryFailures.CreateInRemovedBreaks`, `MemoryFailures.LinkIntoRemovedBreaks`), which rmdir() of the standard rules out. The kernel rules out all of these;
  `MemoryRuns.StepKeepsExactly` says that nothing else goes wrong.
- Its `rename` ignores the flags of the request, so one that must not replace its destination does
  (`MemoryRename.ReplacesUnlessDeclined`, `MemoryFailures.RenameReplaces`).
- Its `unlink` of a directory is EISDIR, as on Linux, where the standard has EPERM (`MemoryTree.UnlinkRefines`).
- Its `write` of no bytes beyond the end extends the file; POSIX write() would not (`SparseFile.EmptyWritesExtend`).
- `from_flock` maps a negative pid to zero (`FileLock.DecodeThenEncode`), as its documentation says.
- `secs_nsecs_to_system_time` is documented as the inverse of `system_time_to_secs_nsecs`; both negate a
  number of seconds and overflow at `i64::MIN`, which a build with overflow checks turns into a panic: the encoder at the
  one instant that starts that second, the decoder at every instant of it (`Timestamps.DecodeThenEncode`, `Timestamps.EncodeThenDecode`).
- The generation counter wraps at 64 bits, so (inode, generation) pairs repeat then and never before
  (`Nodes.PairsRepeatOnlyAtTheWrap`).
- A list of attribute names survives its NUL-separated form only if no name is empty or holds a NUL
  (`XattrNames.RoundTrip`).

## Model

| member | source | states |
|---|---|---|
| Nodes.InsertIsExact | typed_fuse_core/src/runtime.rs:162-178 | an insert takes an inode that is not live, numbers it with that inode's next generation, and leaves live and free inodes a partition |
| Nodes.ApplyIsExact | typed_fuse_core/src/runtime.rs:124-198 | after any one call on the table nothing live is droppable, live and free inodes partition [1, next_ino), and no inode that stays live changes record or generation |
| Nodes.ReclamationIsExact | typed_fuse_core/src/runtime.rs:64-102 | the same from a fresh table after every sequence of insert, get, drop, reparent, link, lookup, forget and open calls |
| Nodes.PairsRepeatOnlyAtTheWrap | typed_fuse_core/src/runtime.rs:88-102 | two issues of one inode carry one generation if and only if the issues of it between them are a multiple of 2^64; below that, generations strictly increase |
| Nodes.NodeTable.constructor | typed_fuse_core/src/runtime.rs:336-352 | a fresh table holds the root alone, linked once |
| Nodes.NodeTable.TakeIno | typed_fuse_core/src/runtime.rs:88-94 | the last freed inode with its next generation, or else a new inode |
| Nodes.NodeTable.DropIfUnused | typed_fuse_core/src/runtime.rs:96-102 | a slot with no count left goes to the free list, with its generation moved on |
| Nodes.NodeTable.Get | typed_fuse_core/src/runtime.rs:144-156 | a lease on the record the inode has now, counted, if the inode is live |
| Nodes.NodeTable.DropRef | typed_fuse_core/src/runtime.rs:124-134 | one lease less on the same record only, then reclamation |
| Nodes.NodeTable.InsertNode | typed_fuse_core/src/runtime.rs:162-178 | the new node is live with one link, its parent, a new record and the issued generation |
| Nodes.NodeTable.SetParent | typed_fuse_core/src/runtime.rs:180-184 | the parent of a live inode changes, nothing else |
| Nodes.NodeTable.Link | typed_fuse_core/src/runtime.rs:186-190 | one link more on a live inode |
| Nodes.NodeTable.Unlink | typed_fuse_core/src/runtime.rs:192-198 | one link less, then reclamation |
| Nodes.NodeTable.RetainLookup | typed_fuse_core/src/runtime.rs:408-413 | one lookup more, or the inode is reported absent |
| Nodes.NodeTable.ForgetLookups | typed_fuse_core/src/runtime.rs:434-440 | as many lookups less as are there at most, then reclamation |
| Nodes.NodeTable.CountOpen | typed_fuse_core/src/runtime.rs:498-503 | one open more, or the inode is reported absent |
| Nodes.NodeTable.UncountOpen | typed_fuse_core/src/runtime.rs:504-510 | one open less, then reclamation |
| Handles.HandleRecord.Acquire | typed_fuse_core/src/runtime.rs:233-246 | a lease is granted exactly when the record is not closing |
| Handles.HandleRecord.DropLease | typed_fuse_core/src/runtime.rs:284-292 | one lease less, and the last one out of a closing record wakes every waiter |
| Handles.HandleRecord.CloseAndTake | typed_fuse_core/src/runtime.rs:248-259 | the loop makes the steps of the step relation, is left in the first wait in which the drops add up to the leases at the close, and consumes the payload once, with no lease left |
| Handles.HandleTable.Add | typed_fuse_core/src/runtime.rs:308-324 | a fresh handle number, never used in either table, and one more record, as the step relation enters it |
| Handles.HandleTable.Borrowed | typed_fuse_core/src/runtime.rs:511-532 | a lease, counted as the step relation counts it, exactly on a handle of that kind opened on that inode and not closing; no record changes otherwise |
| Handles.HandleTable.Remove | typed_fuse_core/src/runtime.rs:643-648 | the record leaves the table, as in the step relation, for one caller, exactly if it was opened on that inode; every other handle stays |
| Handles.HandleTable.LookupFinds | typed_fuse_core/src/runtime.rs:511-519 | what the two maps hold under a number is what the step relation finds under it |
| RuntimeProofs.NextKeeps | typed_fuse_core/src/runtime.rs:534-543 | every step of every thread and of the environment keeps the invariant |
| RuntimeProofs.OpenKeeps | typed_fuse_core/src/runtime.rs:534-543 | the sections of open keep it |
| RuntimeProofs.AddRecordKeeps | typed_fuse_core/src/runtime.rs:313-324 | the insertion of a handle keeps the invariant: the open its thread had counted is now counted for the handle |
| RuntimeProofs.ReleaseCountsKeep | typed_fuse_core/src/runtime.rs:649-650 | the node of a removed handle is found, on the incarnation that was opened, and its open is given back |
| RuntimeProofs.CloseKeeps | typed_fuse_core/src/runtime.rs:248-253 | closing a record keeps the invariant |
| RuntimeProofs.EntryCountKeeps | typed_fuse_core/src/runtime.rs:397-405 | counting the lookup of a reply keeps the invariant though the lock was dropped in between |
| RuntimeProofs.RetainKeeps | typed_fuse_core/src/runtime.rs:714-727 | counting an accepted entry of a listing keeps the invariant |
| RuntimeProofs.UndoKeeps | typed_fuse_core/src/runtime.rs:746-751 | forgetting one accepted entry takes back a lookup that is there |
| RuntimeTheorems.RunHolds | typed_fuse_core/src/runtime.rs:327-334 | the invariant holds after every schedule of any number of threads |
| RuntimeTheorems.IssuesAreUnique | typed_fuse_core/src/runtime.rs:88-102 | in every interleaving, two issues of one inode carry one generation exactly at the counter wrap, and no (inode, generation) pair is issued twice before it |
| RuntimeTheorems.CountersAreExact | typed_fuse_core/src/runtime.rs:498-543 | in every interleaving leases are the live node references, opens the tabled handles and the operations between count and table, lookups those replied to or in flight; what is referenced is live, and what is live is used |
| RuntimeTheorems.NodeRefsPin | typed_fuse_core/src/runtime.rs:124-134 | while a node reference lives its inode keeps that record, so the pointer test succeeds and the decrement does not saturate |
| RuntimeTheorems.TabledHandlesPin | typed_fuse_core/src/runtime.rs:534-543 | a handle in the table pins the incarnation it was opened on |
| RuntimeTheorems.ReleaseFindsItsNode | typed_fuse_core/src/runtime.rs:642-653 | after removing its record, release never fails to find the node, nor finds another incarnation |
| RuntimeTheorems.NoLateFailures | typed_fuse_core/src/runtime.rs:894-906 | add_open after a callback or an entry reply, and the counting of a reply, never find the inode gone |
| RuntimeTheorems.EntryRepliesAreCoherent | typed_fuse_core/src/runtime.rs:394-406 | the attributes and the generation of an entry reply describe one incarnation, live when the reply is sent |
| RuntimeTheorems.BorrowedPayloadsAreThere | typed_fuse_core/src/runtime.rs:272-282 | a payload is touched only under a counted lease of a handle on the same incarnation, while it is neither taken nor dropped |
| RuntimeTheorems.TakingIsExclusive | typed_fuse_core/src/runtime.rs:248-259 | whoever takes a payload won it alone: no lease in any thread, no other taker, not in the table, not consumed |
| RuntimeTheorems.ConsumedExactlyOnce | typed_fuse_core/src/runtime.rs:262-270 | no payload is consumed twice, and when all is over and the runtime dropped each was consumed once |
| RuntimeTheorems.NextEvolves | typed_fuse_core/src/runtime.rs:284-292 | no step undoes closing or taking, a closing record gains no lease, and a step gives back one lease at most, by its holder |
| RuntimeTheorems.ClosingDrains | typed_fuse_core/src/runtime.rs:248-253 | along every schedule the leases left at a closing record are those at the close less those given back |
| RuntimeTheorems.NoLostWakeup | typed_fuse_core/src/runtime.rs:250-254 | a sleeper waits for a lease that another thread holds; with none left the waiter is awake and takes the payload next |
| RuntimeTheorems.UndoTakesBackTheListing | fuse3/src/session.rs:604-609 | whatever all other threads do in between, the steps that forget a returned listing once per element take back exactly its lookups, repeats included, and touch no other count |
| RuntimeSteps.HandlesMoveExactly | typed_fuse_core/src/runtime.rs:313-324 | a step enters a handle exactly if it ends an open, opendir or create, and then one new one of that kind on that node, withdraws one exactly if it starts a release that finds it, and starts the closing of one exactly if it is the winner of that release; all other handles stay |
| RuntimeSteps.HandlesStay | typed_fuse_core/src/runtime.rs:511-532 | along every schedule a handle keeps kind and node, is in the table until a release names it, and never comes back |
| RuntimeSteps.SlotsMoveExactly | typed_fuse_core/src/runtime.rs:144-198 | links and parents of live inodes change only by the calls of the filesystem, by what these say; an inode appears only by its insert, with one link and its parent, and goes only without links |
| RuntimeSteps.KernelAndFilesystemHold | typed_fuse_core/src/runtime.rs:434-440 | the kernel is told of a lookup exactly by the replies sent, and takes back what it forgets and no more; the filesystem holds the leases it took and did not drop |
| RuntimeSteps.UnusedRecordsAreDropped | typed_fuse_core/src/runtime.rs:262-270 | a record out of its table to which no thread refers is dropped and its payload consumed, any other stays |
| RuntimeAnswers.OpenAnswers | typed_fuse_core/src/runtime.rs:534-543 | amid any interleaving an open or opendir of a live inode leases it, calls the filesystem, and then counts, enters the handle and drops the lease, or only drops it if the filesystem refuses; an unknown inode is refused without effect |
| RuntimeAnswers.OpenedHandlesServe | typed_fuse_core/src/runtime.rs:511-543 | the handle an open, opendir or create leaves has the next number, that kind and that node; in any interleaving without a release of it every lookup of that number for that kind and inode leads to its use, and none for the other kind or another inode does |
| RuntimeAnswers.FindAnswers | typed_fuse_core/src/runtime.rs:511-532 | a handle is found exactly if it is in the table of that kind and opened on that inode, and is then used unless it is released in between; otherwise the operation drops its node and ends |
| RuntimeAnswers.UseAnswers | typed_fuse_core/src/runtime.rs:579-583 | the same from the request on: the node is leased first, and an unknown inode is refused without effect |
| RuntimeAnswers.AcquireAnswers | typed_fuse_core/src/runtime.rs:233-246 | a record found is lent exactly if it is not closing by then |
| RuntimeAnswers.UseEnds | typed_fuse_core/src/runtime.rs:284-292 | when its callback returns, whatever the result, an operation gives the handle back, drops its node and ends |
| RuntimeAnswers.ReleaseAnswers | typed_fuse_core/src/runtime.rs:642-654 | a release or releasedir wins exactly a handle in the table of its kind and inode; that leaves the table at once and for good, its node is found, its open given back, it is closed, its payload consumed once and passed on; otherwise nothing changes |
| RuntimeAnswers.ReleaseEnds | typed_fuse_core/src/runtime.rs:248-259 | a release of a handle without leases does not wait; after its callback it drops the node and ends |
| RuntimeAnswers.EntryAnswers | typed_fuse_core/src/runtime.rs:394-406 | the reply names the inode the filesystem returned, with generation and attributes of the incarnation leased, and is sent after create has opened a file handle on that same incarnation; a missing inode or failing attributes end it without a lookup |
| RuntimeAnswers.EmitAnswers | typed_fuse_core/src/runtime.rs:714-727 | an entry joins an accounted listing, as the incarnation live when counted, exactly if its inode is there and the buffer accepts it |
| RuntimeAnswers.ListingAnswers | typed_fuse_core/src/runtime.rs:734-753 | a completed listing is returned whole; a failed one is forgotten entry by entry and returned empty, one whose reply fails is forgotten entry by entry; handle and node are let go before the reply |
| PosixTree.MoveKeepsTreeExactly | typed_fuse_core/src/path_fs.rs:709-710 | moving a name keeps the hierarchy a tree if and only if no directory goes beneath itself |
| PosixTree.RenameKeepsTree | typed_fuse_core/src/path_fs.rs:709-710 | the rename() of the standard keeps the hierarchy a tree |
| PathNamespace.PathIsUnique | typed_fuse_core/src/path_fs.rs:462-470 | a node has at most one path |
| PathNamespace.PathForUnfolds | typed_fuse_core/src/path_fs.rs:462-470 | the path function satisfies the recursion over first aliases, in every namespace |
| PathNamespace.InsertedKeeps | typed_fuse_core/src/path_fs.rs:472-490 | a first sight adds one live node with one alias, link and key, a second sight nothing, and the index stays exact |
| PathNamespace.NameRemovedKeeps | typed_fuse_core/src/path_fs.rs:559-563 | removing a name and its link keeps both maps inverse, without empty alias sets, and links equal to aliases |
| PathNamespace.NameLinkedKeepsExactly | typed_fuse_core/src/path_fs.rs:503-506 | adding an alias keeps the index exact if and only if the name was free |
| PathNamespace.NameMovedKeeps | typed_fuse_core/src/path_fs.rs:719-731 | every case of the renaming of the index keeps it exact |
| PathNamespace.RuntimeKeepsIndex | typed_fuse_core/src/runtime.rs:434-440 | lookups, forgets, opens, releases and leases in between never reclaim a node that has a name |
| Enumeration.FailedListingLeavesNoTrace | typed_fuse_core/src/path_fs.rs:849-855 | after any emitted names and a failure, both maps and every live slot with its counts are as before, and every node made is reclaimed |
| Enumeration.ListingIsCharged | typed_fuse_core/src/runtime.rs:714-751 | a successful readdirplus raises lookups by exactly each node's multiplicity in the returned list, nothing for dots, and forgetting the list restores them |
| PathAdapter.DirectoriesStandOnce | typed_fuse_core/src/path_fs.rs:462-470 | two nodes with a path never stand for one directory |
| PathAdapter.PathsResolve | typed_fuse_core/src/path_fs.rs:462-470 | a node with a place has a path, which the wrapped filesystem resolves to the object the node stands for |
| PathAdapter.NodeAddedKeeps | typed_fuse_core/src/path_fs.rs:541-543 | a looked up or created name gets a node that stands for what the name leads to |
| PathAdapter.RemovalRefines | typed_fuse_core/src/path_fs.rs:1054-1061 | taking a name, once it is gone from the tree, out of the index with its link keeps the index a refinement of the tree |
| PathAdapter.LinkRefines | typed_fuse_core/src/path_fs.rs:735-754 | linking keeps the index a refinement of the tree |
| PathAdapter.RenameRefinesExactly | typed_fuse_core/src/path_fs.rs:693-733 | a refused rename changes nothing; a successful one keeps the refinement if and only if its source is bound, its destination unbound, or both lead to one object |
| PathAdapter.UnboundSourceBreaksTheIndex | typed_fuse_core/src/path_fs.rs:720-722 | a run of two calls, a lookup of one of two files and a rename of the other over it, after which the path of the node looked up leads to the other file |
| PathAdapter.ListEntriesKeeps | typed_fuse_core/src/path_fs.rs:828-886 | listings keep the refinement; one that fails leaves maps and slots as they were, and one that succeeds with names of the directory does to the index exactly what the sinks do |
| PathAdapter.CalledKeepsExactly | typed_fuse_core/src/path_fs.rs:607-886 | any call keeps the refinement if and only if it is no successful rename of an unseen name over a seen one that leads elsewhere; a call that fails leaves names, objects and counts as they were |
| PathAdapter.EveryPathResolves | typed_fuse_core/src/path_fs.rs:607-754 | over a filesystem with any content, after any sequence of calls without such a rename, every node with an alias has a path that resolves to the object it stands for |
| AdapterAnswers.LookupAnswers | typed_fuse_core/src/path_fs.rs:607-620 | a lookup answers with the node bound to the name, new or known, which stands for the object the name leads to; absence exactly if the parent is an attached directory without the name; else the exact error and no effect |
| AdapterAnswers.CreateAnswers | typed_fuse_core/src/path_fs.rs:628-671 | creation succeeds exactly in an attached directory without the name; the answer is the new node of the name, standing for the new object of the kind asked for; else the exact error and no effect |
| AdapterAnswers.RemoveAnswers | typed_fuse_core/src/path_fs.rs:1039-1062 | unlink removes exactly a non-directory, rmdir exactly an empty directory; the name is gone from tree and index, its node has a link less, and nothing else changes; else the exact error and no effect |
| AdapterAnswers.RenameAnswers | typed_fuse_core/src/path_fs.rs:693-733 | rename succeeds exactly without flags, between attached directories and where the standard has no objection; the name leads to the object and to its node, a replaced node has a link less; else the exact error and no effect |
| AdapterAnswers.LinkAnswers | typed_fuse_core/src/path_fs.rs:735-754 | link succeeds exactly for an attached non-directory and a free name in an attached directory, answers with the source's own node, and gives it the name and a link; else the exact error and no effect |
| AdapterAnswers.ListAnswers | typed_fuse_core/src/path_fs.rs:828-886 | a completed listing binds exactly the names the directory has and the buffer took, known names to their nodes and others to new ones, for plain and plus listings; a failed one binds nothing |
| AdapterAnswers.AstrayIsMissing | typed_fuse_core/src/path_fs.rs:607-754 | in any state of the index, a call whose path leads nowhere is ENOENT without effect; while the index refines the tree no path does |
| AdapterAnswers.CountingAnswers | typed_fuse_core/src/runtime.rs:434-440 | the runtime's counting in between moves counts only, and no node with a name goes |
| PathMoves.RenameRewritesPrefixes | typed_fuse_core/src/path_fs.rs:711-732 | moving a directory changes each path through it by exactly the prefix and no other path, and no index entry but the two named |
| PathMoves.NotIntoItself | typed_fuse_core/src/path_fs.rs:709-710 | a successful directory rename never goes to a path that its own path begins |
| PathMoves.PathNamesOneNode | typed_fuse_core/src/path_fs.rs:462-470 | a directory's path is the path of no other node |
| PathNodeFs.Namespace.AddAlias | typed_fuse_core/src/path_fs.rs:503-506 | the name is bound and joins the node's aliases |
| PathNodeFs.Namespace.Remove | typed_fuse_core/src/path_fs.rs:492-501 | the name is unbound, leaves its node's aliases, and an empty set goes |
| PathNodeFs.Namespace.Insert | typed_fuse_core/src/path_fs.rs:472-490 | the bound node, or a new node under a new key in table and index |
| PathNodeFs.PathNodeFs.RemoveName | typed_fuse_core/src/path_fs.rs:1054-1060 | the name goes from the index, with its link from the table |
| PathNodeFs.PathNodeFs.MoveName | typed_fuse_core/src/path_fs.rs:711-731 | index and table after a rename |
| PathNodeFs.PathNodeFs.LinkName | typed_fuse_core/src/path_fs.rs:747-752 | index and table after a link |
| PathNodeFs.ListingSink.Add | typed_fuse_core/src/path_fs.rs:1115-1133 | one emitted name: node on first sight, lookup when taken, withdrawn when not |
| PathNodeFs.ListingSink.RollBack | typed_fuse_core/src/path_fs.rs:1108-1113 | the inserted names are removed, last first |
| PathNodeFs.ListingSink.ForgetAccepted | typed_fuse_core/src/runtime.rs:746-751 | one lookup is forgotten per accepted entry, first to last |
| PathNodeFs.FailingRead | typed_fuse_core/src/path_fs.rs:858-886 | a failing directory read leaves both maps and all slots as it found them |
| MemoryFs.RenameIsAllOrNothing | fuse3/examples/memory_fs.rs:465-521 | a rename that fails has written nothing, on any table: its late error cannot be reached |
| MemoryTree.CreateKeepsExactly | fuse3/examples/memory_fs.rs:185-201 | creating keeps the tree and every count if and only if the parent is linked |
| MemoryTree.CreatedTree | fuse3/examples/memory_fs.rs:132-201 | creation is the standard's, error for error, if and only if the parent is linked; in a removed directory, where the standard has ENOENT, it succeeds |
| MemoryTree.UnlinkRefines | fuse3/examples/memory_fs.rs:395-421 | unlink is the standard's, error for error except that a directory is EISDIR instead of EPERM, and keeps the tree and every count; a node that nothing uses any more is gone |
| MemoryTree.RmdirRefines | fuse3/examples/memory_fs.rs:423-453 | rmdir is the standard's, error for error, and keeps the tree and every count |
| MemoryTree.LinkRefines | fuse3/examples/memory_fs.rs:558-580 | link is the standard's, error for error, and keeps the tree and every count, if and only if the new parent is linked; into a removed directory, where the standard has ENOENT, it succeeds |
| MemoryTree.SettlingKeeps | fuse3/examples/memory_fs.rs:553 | removing the one link that is owed makes all counts exact; a node reclaimed by it is named by nothing |
| MemoryRename.RenameOwes | fuse3/examples/memory_fs.rs:499-552 | after the writes of a rename in order, tree, parents and all counts are exact but for the replaced entry's link |
| MemoryRename.BadRenameBreaks | fuse3/examples/memory_fs.rs:506-521 | a rename into a missing or unlinked directory, or beneath itself, breaks the tree or its counts |
| MemoryRename.RenameRefines | fuse3/examples/memory_fs.rs:455-556 | rename is the standard's wherever that succeeds, and keeps tree and counts exactly then; a refusal changes nothing and is the standard's, unless the standard refuses already because the move is beneath itself |
| MemoryRename.ReplacesUnlessDeclined | fuse3/examples/memory_fs.rs:455-464 | a destination that exists stays if and only if the rename is declined by its guards; no flag could save it |
| MemoryRuns.CountingKeeps | typed_fuse_core/src/runtime.rs:434-440 | the runtime's counting never disturbs the tree, and reclaims no node an entry names |
| MemoryRuns.StepKeepsExactly | fuse3/examples/memory_fs.rs:305-580 | any call keeps the tree and its counts, which are all this speaks of, if and only if it is declined by a guard visible before it, or gives new names only in linked directories, outside what is moved |
| MemoryRuns.RunsStayTrees | fuse3/examples/memory_fs.rs:209-580 | from an empty filesystem every run of such calls leaves a tree with exact counts |
| MemoryRuns.WhatCountsMean | fuse3/examples/memory_fs.rs:57-75 | a linked directory has one entry and its parent is that entry's directory, its nlink is 2 and its subdirectories, also for the root; a file's nlink, slot links and entries agree; an unnamed node is in use |
| MemoryFailures.MissingParentBreaks | fuse3/examples/memory_fs.rs:470-474 | a run of one mkdir and a rename into a directory that does not exist, after which the directory moved has a link and no entry |
| MemoryFailures.MoveBeneathItselfBreaks | fuse3/examples/memory_fs.rs:498-521 | a run of two mkdirs and a rename of the outer directory into the inner one, after which each has its one entry in the other and the root has none |
| MemoryFailures.CreateInRemovedBreaks | fuse3/examples/memory_fs.rs:132-147 | a run that removes a directory still looked up and then creates a file in it, which is then in a directory no entry names |
| MemoryFailures.RenameIntoRemovedBreaks | fuse3/examples/memory_fs.rs:506-521 | a run that renames a file into a removed directory and so out of the tree |
| MemoryFailures.LinkIntoRemovedBreaks | fuse3/examples/memory_fs.rs:558-580 | a run that links a file into a removed directory, whose entry then counts in no tree |
| MemoryFailures.RenameReplaces | fuse3/examples/memory_fs.rs:455-464 | a run in which a rename replaces a file, whatever its flags, and the file is gone |
| MemoryRuns.NodesInUseSurvive | fuse3/examples/memory_fs.rs:395-556 | no call takes away a node that is looked up, open or leased, its incarnation, counts or file content, but for a write to it and the counting of its own uses, which takes it away only with its last use and no entry naming it |
| MemoryContent.MakeAnswers | fuse3/examples/memory_fs.rs:305-393 | under a free name of a directory there is then a new node of the kind asked for holding what was asked for: the target, no bytes, no entries; nothing else changes, and without such a name nothing at all |
| MemoryContent.WriteAnswers | fuse3/examples/memory_fs.rs:622-627 | a write makes a live file hold the bytes written and changes nothing else |
| MemoryContent.ContentLasts | fuse3/examples/memory_fs.rs:283-289 | along every run, whatever its calls, a live incarnation keeps its kind, and what a file, link or special file holds unless its bytes are written |
| MemoryContent.MadeContentLasts | fuse3/examples/memory_fs.rs:354-371 | a link made by symlink has its target, and a file made is empty, for as long as it is live and nobody writes it |
| MemoryContent.StepIsPosix | fuse3/examples/memory_fs.rs:305-580 | a call whose caller does its part does to the hierarchy what the standard's operation of that name does, for the same arguments, and nothing where that refuses |
| MemoryOps.LeasedWrite | fuse3/examples/memory_fs.rs:165-182 | leasing a node, writing it and dropping the lease is writing it |
| MemoryOps.RemovalUnderLease | fuse3/examples/memory_fs.rs:431-451 | removing the last link under a lease and then dropping it reclaims just as removing the link does |
| MemoryOps.MemoryFileSystem.Read | fuse3/examples/memory_fs.rs:158-162 | reads a live node and leaves the table as it was |
| MemoryOps.MemoryFileSystem.Update | fuse3/examples/memory_fs.rs:172-181 | writes a live node in place and leaves all counts as they were |
| MemoryOps.MemoryFileSystem.Entry | fuse3/examples/memory_fs.rs:149-156 | the entry, or that parent or name is missing, or that the parent is no directory |
| MemoryOps.MemoryFileSystem.NewEntryRefused | fuse3/examples/memory_fs.rs:132-147 | why a name cannot be given, if it cannot |
| MemoryOps.MemoryFileSystem.LinkInto | fuse3/examples/memory_fs.rs:165-182 | the entry is in the parent, which counts a subdirectory more if it is one |
| MemoryOps.MemoryFileSystem.CreateChild | fuse3/examples/memory_fs.rs:185-201 | performs in place the creation the lemmas are about |
| MemoryOps.MemoryFileSystem.Unlink | fuse3/examples/memory_fs.rs:395-421 | performs in place the unlinking the lemmas are about |
| MemoryOps.MemoryFileSystem.Rmdir | fuse3/examples/memory_fs.rs:423-453 | the same result although the child is leased across the removal of its link |
| MemoryOps.MemoryFileSystem.Link | fuse3/examples/memory_fs.rs:558-580 | performs in place the linking the lemmas are about |
| MemoryOps.MemoryFileSystem.ReplacementRefused | fuse3/examples/memory_fs.rs:479-495 | why an existing destination cannot be replaced, if it cannot |
| MemoryOps.MemoryFileSystem.Enter | fuse3/examples/memory_fs.rs:506-536 | the new entry, the parent, and the two subdirectory counts |
| MemoryOps.MemoryFileSystem.Disown | fuse3/examples/memory_fs.rs:537-554 | the replaced entry leaves the counts, then the table |
| MemoryOps.MemoryFileSystem.Rename | fuse3/examples/memory_fs.rs:455-556 | performs in place the renaming the lemmas are about, whatever the flags |
| SparseFile.EditsAgree | fuse3/examples/memory_fs.rs:254-257 | for every history of writes and truncates the vector holds, byte for byte, the last edit that touched the byte and zero if none did, and has the history's length |
| SparseFile.AppliedAgrees | fuse3/examples/memory_fs.rs:622-627 | one edit keeps that agreement |
| SparseFile.RegrownBytesAreZero | fuse3/examples/memory_fs.rs:254-257 | bytes cut off do not come back when the file grows again |
| SparseFile.EmptyWritesExtend | fuse3/examples/memory_fs.rs:622-626 | the length after a write is the standard's if and only if something is written or the offset is within the file |
| SparseFile.FileNode.Write | fuse3/examples/memory_fs.rs:609-630 | records the write and keeps the agreement, or refuses a node without bytes |
| SparseFile.FileNode.SetSize | fuse3/examples/memory_fs.rs:254-257 | records the resize and keeps the agreement; no effect on a node without bytes |
| SparseFile.FileNode.Read | fuse3/examples/memory_fs.rs:589-607 | returns the history's bytes from the offset up to the size or the end, whenever the offset is beyond the end or the sum fits |
| Listing.DirBuffer.Add | fuse3/src/ffi.rs:192-227 | an entry is taken exactly when it fits; one with a NUL in its name is passed over |
| Base.NameLeqIsLexicographic | typed_fuse_core/src/path_fs.rs:433-437 | names are in bytewise lexicographic order: one comes first exactly if it is the beginning of the other or has the smaller byte where they first differ |
| Base.SortedNamesIsTheOrder | fuse3/examples/memory_fs.rs:662-668 | a set of names has one ascending list, so the order in which a map of names is iterated is determined |
| Listing.ReadDir | fuse3/examples/memory_fs.rs:632-670 | the buffer gets the longest run of entries from the cookie on that fits |
| Listing.NothingLostOrRepeated | fuse3/examples/memory_fs.rs:648-668 | whatever the buffer sizes, the pages so far and the rest from the last cookie make up the listing |
| Listing.PageIsEmpty | fuse3/src/ffi.rs:205-211 | a page is empty exactly when nothing is left to show or the next entry does not fit |
| Listing.ListingProgresses | fuse3/examples/memory_fs.rs:643-669 | with room for one entry in each buffer every page shows one at least, until all are shown |
| Listing.ListingIsComplete | fuse3/examples/memory_fs.rs:643-669 | the pages together are dot, dot-dot and each entry once, in order, and the next page is empty |
| Listing.ReadAll | fuse3/examples/memory_fs.rs:632-670 | resuming each read at the last cookie of the one before yields those pages |
| FileLock.EncodesExactlyWhatFits | fuse3/src/file_lock.rs:33-69 | encoding succeeds exactly when the range is upright and start, length and pid fit; inversion is EINVAL and every misfit EOVERFLOW |
| FileLock.EncodeThenDecode | fuse3/src/file_lock.rs:33-102 | an encoded lock has the pid and kind given, covers the same bytes from the start of the file, and decodes to itself, so finite and to-end ranges never collide |
| FileLock.DecodesExactlyTheValid | fuse3/src/file_lock.rs:76-102 | a raw lock is accepted exactly when it is an absolute, non-negative range of a known type; everything else is EINVAL |
| FileLock.DecodedFields | fuse3/src/file_lock.rs:71-102 | every decoded lock covers exactly the bytes of the raw one, is of the kind the raw type names, and has its pid, or 0 where that is negative |
| FileLock.DecodeThenEncode | fuse3/src/file_lock.rs:76-102 | the reverse trip returns the raw lock with its pid, or 0 for a negative one, hence the raw lock itself if and only if its pid is not negative |
| Timestamps.EncodeIsFloor | fuse3/src/conv.rs:57-71 | encoding yields whole seconds rounded down and the rest, and fails on the earliest instant only |
| Timestamps.DecodeThenEncode | fuse3/src/conv.rs:74-80 | every pair but those of second i64::MIN survives decoding and encoding |
| Timestamps.EncodeThenDecode | fuse3/src/conv.rs:57-80 | a time survives encoding and decoding if and only if its second is not i64::MIN |
| Timestamps.DecodersAgree | fuse3/src/passthrough.rs:46-61 | the two decoders agree wherever the first is defined, and the second is right everywhere |
| XattrNames.ListNames | fuse3/examples/memory_fs.rs:712-724 | the names in order, each with a NUL after it, or the length of that for a size of zero |
| XattrNames.RoundTrip | fuse3/src/passthrough.rs:231-242 | splitting what was joined returns the names if and only if each is non-empty and without NUL |
| XattrNames.NamesAreTheRuns | fuse3/src/passthrough.rs:231-242 | of any buffer, written by whomever, the names are the runs between NULs in order without the empty ones, whether or not the last has a NUL |

## Left out

- The foreign-function layer, session loop, operation tables and the raw encoding of directory entries: an entry's size
  is an arbitrary function of its name.
- System calls of the passthrough helpers and the lock calls themselves; the `F_*LCK` constants are Linux's.
- Times, owners, permissions, devices and attribute values: no invariant here depends on them.
- Overflow of the runtime's counters and of the inode and key counters: a panic, hence a `requires` bound on the methods.
- MemoryFs.CreateChild: the 32-bit link count kept in a node is an unbounded number.
- Path components: a name is any byte string, and a path a list of names; slashes, `.` and `..` inside names are not
  interpreted, as the kernel never sends them.
- Runtime: handles are numbered by their position in the order of creation, not from one, and the callbacks' own work
  is any sequence of the table's calls. The callback's result is an arbitrary choice.
- Runtime.Next: the read of `parent` and the entry-reply half of an accounted listing entry (`plus_entry`) are folded
  into the step that follows; the reading callbacks that only hold a lease are one kind of step.
- Runtime.Returned: a single-entry reply always reaches the kernel, since the callers ignore the outcome of sending it;
  only the reply to a listing may fail.
- RuntimeTheorems.ConsumedExactlyOnce: dropping the runtime is a function on the records left, not a step.
- RuntimeTheorems.EntryRepliesAreCoherent: speaks of the incarnation leased by `entry_for`; the identifier that a
  callback returns is not pinned before that.
- PathAdapter: each callback is one atomic operation, and the wrapped filesystem is the tree of the standard, which may
  also refuse any call. Overlap of a lookup with a failing listing is not modelled.
- PathAdapter.EveryPathResolves: no rename of an unseen source over a seen name is taken to succeed, which the kernel's
  own lookup ensures; `PathAdapter.CalledKeepsExactly` is the exact condition.
- PathNodeFs: the in-place methods are the index edits that follow the wrapped filesystem's success; the recursive path
  is a function on the index, not a method.
- Enumeration.ListingIsCharged: holds for a listing as one operation; between `plus_entry` and `retain_lookup` another
  thread may remove the node.
- MemoryFs.RenameEntry: has no flags, as the code ignores them; exchanging two names is not an operation here.
- PosixTree: where the standard allows two errors (a directory that is not empty), the code's one is meant; permissions,
  symbolic links on the way and limits are not part of it.
- MemoryOps: node locks are part of the atomic operation. In `rename`, the insertion of the new entry is a read and a
  write, and times are not touched.
- Listing: the directory does not change between pages; cookies are positions and promise nothing otherwise.
- SparseFile: `u64` offsets are `usize` offsets, as on a 64-bit target.
- Plain delegating callbacks, builders, option rendering, connection capabilities, extended attribute values, the
  benchmark harness: nothing hard.
