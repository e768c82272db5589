/** fuse3/examples/memory_fs.rs: runs that leave the tree, each by the one call its caller should not have made. */
module MemoryFailures {
  import opened Base
  import opened Nodes
  import opened MemoryFs
  import opened MemoryTree
  import opened MemoryRename
  import opened MemoryRuns

  lemma NothingIsPolite()
    ensures PoliteRun([]) && RunAll([]) == EMPTY
  {}

  lemma OneMoreCall(calls: seq<Call>, call: Call)
    ensures RunAll(calls + [call]) == Step(RunAll(calls), call)
    ensures PoliteRun(calls + [call]) <==>
              PoliteRun(calls) && (Polite(RunAll(calls), call) || Declined(RunAll(calls), call))
  {
    assert (calls + [call])[..|calls|] == calls;
  }

  /** No entry anywhere names the node. */
  ghost predicate Unnamed(t: Mem, id: nat)
  {
    forall p, n | EntryOf(t, p, n).Ok? :: EntryOf(t, p, n).value.id != id
  }

  lemma UnnamedIsUnlinked(t: Mem, id: nat)
    requires Unnamed(t, id) && id != ROOT
    ensures !T.Linked(TreeOf(t), id)
  {
    TreeChildren(t);
    NoNames(TreeOf(t), id);
  }

  // ---------- a new parent that is not there ----------

  const ONE_DIR := [Make(ROOT, [97], DirectoryKind, [])]

  lemma OneDirectory()
    ensures PoliteRun(ONE_DIR)
    ensures var t := RunAll(ONE_DIR);
            && t.slots.Keys == {ROOT, 2} && t.nextIno == 3 && t.free == [] && t.slots[2].links == 1
            && t.slots[2].payload == Node(DirectoryKind, Dir(map[]), 2)
            && t.slots[ROOT].payload == Node(DirectoryKind, Dir(map[[97] := DirEntry(2, DirectoryKind)]), 3)
  {
    hide PoliteRun;
    NothingIsPolite();
    OneMoreCall([], ONE_DIR[0]);
    assert [] + [ONE_DIR[0]] == ONE_DIR;
  }

  /** A rename into a directory that is not there loses the directory moved: it has a link, and no name. */
  lemma MissingParentBreaks()
    ensures var t := RunAll(ONE_DIR + [Rename(ROOT, [97], 9, [98])]);
            && PoliteRun(ONE_DIR) && !MemOk(t)
            && 2 in t.slots && t.slots[2].links == 1 && t.slots[2].payload.nlink == 2 && Unnamed(t, 2)
  {
    hide MemOwing, RunAll, PoliteRun;
    OneDirectory();
    OneMoreCall(ONE_DIR, Rename(ROOT, [97], 9, [98]));
    RunsStayTrees(ONE_DIR);
    StepKeepsExactly(RunAll(ONE_DIR), Rename(ROOT, [97], 9, [98]));
  }

  // ---------- a move beneath oneself ----------

  const NESTED := ONE_DIR + [Make(2, [98], DirectoryKind, [])]

  lemma NestedDirectories()
    ensures PoliteRun(NESTED)
    ensures var t := RunAll(NESTED);
            && t.slots.Keys == {ROOT, 2, 3}
            && t.slots[ROOT].payload == Node(DirectoryKind, Dir(map[[97] := DirEntry(2, DirectoryKind)]), 3)
            && t.slots[2].payload == Node(DirectoryKind, Dir(map[[98] := DirEntry(3, DirectoryKind)]), 3)
            && t.slots[3].payload == Node(DirectoryKind, Dir(map[]), 2)
  {
    hide PoliteRun, RunAll;
    OneDirectory();
    OneMoreCall(ONE_DIR, Make(2, [98], DirectoryKind, []));
    assert (ROOT, [97]) in T.Namings(TreeOf(RunAll(ONE_DIR)), 2);
  }

  /** A directory moved into its own child is cut off from the root: each of the two has its one name in the other. */
  lemma MoveBeneathItselfBreaks()
    ensures var t := RunAll(NESTED + [Rename(ROOT, [97], 3, [99])]);
            && PoliteRun(NESTED) && !MemOk(t)
            && EntryOf(t, 2, [98]) == Ok(DirEntry(3, DirectoryKind))
                 && EntryOf(t, 3, [99]) == Ok(DirEntry(2, DirectoryKind))
            && ROOT in t.slots && t.slots[ROOT].payload.content == Dir(map[])
  {
    hide MemOwing, RunAll, PoliteRun, TreeOf, T.Linked;
    NestedDirectories();
    OneMoreCall(NESTED, Rename(ROOT, [97], 3, [99]));
    RunsStayTrees(NESTED);
    var t := RunAll(NESTED);
    TreeChildren(t);
    assert T.Walk(TreeOf(t), 2, [[98]]) == Some(3) by { assert [[98]][..0] == []; }
    StepKeepsExactly(t, Rename(ROOT, [97], 3, [99]));
  }

  // ---------- a directory that was removed ----------

  const LOOKED_UP := ONE_DIR + [Count(OpLookup(2))]
  const REMOVED := LOOKED_UP + [Rmdir(ROOT, [97])]
  const REMOVED_AND_FILE := REMOVED + [Make(ROOT, [98], RegularFile, [])]

  lemma RemovedDirectory()
    ensures PoliteRun(REMOVED)
    ensures var t := RunAll(REMOVED);
            && t.slots.Keys == {ROOT, 2} && t.nextIno == 3 && t.free == []
            && t.slots[ROOT].payload == Node(DirectoryKind, Dir(map[]), 2)
            && t.slots[2].payload == Node(DirectoryKind, Dir(map[]), 0)
  {
    hide PoliteRun;
    OneDirectory();
    OneMoreCall(ONE_DIR, Count(OpLookup(2)));
    OneMoreCall(LOOKED_UP, Rmdir(ROOT, [97]));
  }

  lemma RemovedDirectoryAndFile()
    ensures PoliteRun(REMOVED_AND_FILE)
    ensures var t := RunAll(REMOVED_AND_FILE);
            && t.slots.Keys == {ROOT, 2, 3}
            && t.slots[ROOT].payload == Node(DirectoryKind, Dir(map[[98] := DirEntry(3, RegularFile)]), 2)
            && t.slots[2].payload == Node(DirectoryKind, Dir(map[]), 0)
            && t.slots[3].payload == Node(RegularFile, File([]), 1)
  {
    hide PoliteRun, RunAll;
    RemovedDirectory();
    OneMoreCall(REMOVED, Make(ROOT, [98], RegularFile, []));
  }

  /** A file created in a directory that was removed while still looked up is in a directory that nothing names. */
  lemma CreateInRemovedBreaks()
    ensures var t := RunAll(REMOVED + [Make(2, [98], RegularFile, [])]);
            && PoliteRun(REMOVED) && !MemOk(t)
            && EntryOf(t, 2, [98]) == Ok(DirEntry(3, RegularFile)) && Unnamed(t, 2)
  {
    hide MemOwing, RunAll, PoliteRun;
    RemovedDirectory();
    OneMoreCall(REMOVED, Make(2, [98], RegularFile, []));
    RunsStayTrees(REMOVED);
    UnnamedIsUnlinked(RunAll(REMOVED), 2);
    StepKeepsExactly(RunAll(REMOVED), Make(2, [98], RegularFile, []));
  }

  /** So is a file moved or linked there. */
  lemma RenameIntoRemovedBreaks()
    ensures var t := RunAll(REMOVED_AND_FILE + [Rename(ROOT, [98], 2, [99])]);
            && PoliteRun(REMOVED_AND_FILE) && !MemOk(t)
            && EntryOf(t, 2, [99]) == Ok(DirEntry(3, RegularFile)) && Unnamed(t, 2)
            && EntryOf(t, ROOT, [98]) == Err(ENOENT)
  {
    hide MemOwing, RunAll, PoliteRun;
    RemovedDirectoryAndFile();
    OneMoreCall(REMOVED_AND_FILE, Rename(ROOT, [98], 2, [99]));
    RunsStayTrees(REMOVED_AND_FILE);
    UnnamedIsUnlinked(RunAll(REMOVED_AND_FILE), 2);
    StepKeepsExactly(RunAll(REMOVED_AND_FILE), Rename(ROOT, [98], 2, [99]));
  }

  lemma LinkIntoRemovedBreaks()
    ensures var t := RunAll(REMOVED_AND_FILE + [Link(3, 2, [99])]);
            && PoliteRun(REMOVED_AND_FILE) && !MemOk(t)
            && EntryOf(t, 2, [99]) == Ok(DirEntry(3, RegularFile)) && Unnamed(t, 2)
  {
    hide MemOwing, RunAll, PoliteRun;
    RemovedDirectoryAndFile();
    OneMoreCall(REMOVED_AND_FILE, Link(3, 2, [99]));
    RunsStayTrees(REMOVED_AND_FILE);
    UnnamedIsUnlinked(RunAll(REMOVED_AND_FILE), 2);
    StepKeepsExactly(RunAll(REMOVED_AND_FILE), Link(3, 2, [99]));
  }

  // ---------- a destination that flags should have saved ----------

  const TWO_FILES := [Make(ROOT, [97], RegularFile, []), Make(ROOT, [98], RegularFile, [])]

  lemma TwoFiles()
    ensures PoliteRun(TWO_FILES)
    ensures var t := RunAll(TWO_FILES);
            && t.slots.Keys == {ROOT, 2, 3}
            && t.slots[ROOT].payload.content ==
                 Dir(map[[97] := DirEntry(2, RegularFile), [98] := DirEntry(3, RegularFile)])
            && t.slots[2].payload == t.slots[3].payload == Node(RegularFile, File([]), 1)
            && t.slots[3] == Slot(t.slots[3].payload, t.slots[3].record, t.slots[3].generation, 1, 0, 0, 0, ROOT)
  {
    hide PoliteRun;
    var first, second := TWO_FILES[0], TWO_FILES[1];
    NothingIsPolite();
    OneMoreCall([], first);
    assert [] + [first] == [first];
    OneMoreCall([first], second);
    assert [first] + [second] == TWO_FILES;
  }

  /** Whatever the flags of a rename, the file at its destination is replaced, and gone. */
  lemma RenameReplaces()
    ensures PoliteRun(TWO_FILES) && EntryOf(RunAll(TWO_FILES), ROOT, [98]) == Ok(DirEntry(3, RegularFile))
    ensures var t := RunAll(TWO_FILES + [Rename(ROOT, [97], ROOT, [98])]);
            EntryOf(t, ROOT, [98]) == Ok(DirEntry(2, RegularFile)) && 3 !in t.slots
  {
    hide PoliteRun, RunAll;
    TwoFiles();
    OneMoreCall(TWO_FILES, Rename(ROOT, [97], ROOT, [98]));
  }
}
