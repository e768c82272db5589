/** fuse3/examples/memory_fs.rs, over whole runs: calls of the filesystem, and the runtime's counting in between. */
module MemoryRuns {
  import opened Base
  import opened Nodes
  import opened MemoryFs
  import opened MemoryTree
  import opened MemoryRename

  datatype Call =
    | Make(p: nat, n: Name, kind: FileKind, target: seq<Byte>)
    | Unlink(p: nat, n: Name)
    | Rmdir(p: nat, n: Name)
    | Link(id: nat, p: nat, n: Name)
    | Rename(p: nat, n: Name, q: nat, m: Name)
    | SetBytes(id: nat, bytes: seq<Byte>)
    | Count(op: Op<Node>)

  /** What `mknod`, `mkdir`, `symlink` and `create` put into a new node. */
  function FreshContent(kind: FileKind, target: seq<Byte>): Content
  {
    match kind
    case DirectoryKind => Dir(map[])
    case RegularFile => File([])
    case SymlinkKind => Symlink(target)
    case _ => Special
  }

  function Step(t: Mem, call: Call): Mem
  {
    match call
    case Make(p, n, kind, target) => CreateChild(t, p, n, kind, FreshContent(kind, target)).0
    case Unlink(p, n) => UnlinkEntry(t, p, n).0
    case Rmdir(p, n) => RmdirEntry(t, p, n).0
    case Link(id, p, n) => LinkEntry(t, id, p, n).0
    case Rename(p, n, q, m) => RenameEntry(t, p, n, q, m).0
    case SetBytes(id, bytes) =>
      if id in t.slots && t.slots[id].payload.content.File? then
        Write(t, id, t.slots[id].payload.(content := File(bytes)))
      else t
    case Count(op) => if OnlyCounts(op) then Apply(t, op) else t
  }

  /** New names are given in linked directories only, and no directory goes beneath itself: the caller's part. */
  ghost predicate Polite(t: Mem, call: Call)
  {
    match call
    case Make(p, _, _, _) => T.Linked(TreeOf(t), p)
    case Link(_, p, _) => T.Linked(TreeOf(t), p)
    case Rename(p, n, q, _) => q in t.slots && T.Linked(TreeOf(t), q) && !IntoItself(TreeOf(t), p, n, q)
    case _ => true
  }

  // ---------- counting ----------

  function InodeOf(op: Op<Node>): nat
    requires OnlyCounts(op)
  {
    match op
    case OpGet(ino) => ino
    case OpDropRef(r) => r.ino
    case OpLookup(ino) => ino
    case OpForget(ino, _) => ino
    case OpAddOpen(ino) => ino
    case OpRemoveOpen(ino) => ino
  }

  lemma CountedSlot(t: Mem, op: Op<Node>)
    requires OnlyCounts(op)
    ensures var t', id := Apply(t, op), InodeOf(op);
            if id in t.slots then
              && (t'.slots == t.slots - {id} || (id in t'.slots && t'.slots == t.slots[id := t'.slots[id]]))
              && (id in t'.slots ==>
                    && t'.slots[id].payload == t.slots[id].payload && t'.slots[id].parent == t.slots[id].parent
                    && t'.slots[id].links == t.slots[id].links)
              && (id !in t'.slots ==> t.slots[id].links == 0)
            else t'.slots == t.slots
  {}

  /** The runtime's counting never disturbs the tree, and what it reclaims no entry names. */
  lemma CountingKeeps(t: Mem, op: Op<Node>)
    requires MemOk(t) && OnlyCounts(op)
    ensures MemOk(Apply(t, op)) && TreeOf(Apply(t, op)) == Restrict(TreeOf(t), Apply(t, op).slots.Keys)
  {
    hide MemOwing, Exact, TreeOf, Apply;
    MemBasics(t, None);
    CountedSlot(t, op);
    ApplyIsExact(t, op);
    if InodeOf(op) in t.slots {
      CountsMove(t, Apply(t, op), InodeOf(op), None);
    } else {
      SameSlots(t, Apply(t, op));
    }
  }

  lemma SameSlots(t: Mem, t': Mem)
    requires MemOk(t) && Exact(t') && t'.slots == t.slots
    ensures MemOk(t') && TreeOf(t') == Restrict(TreeOf(t), t'.slots.Keys)
  {
    hide Exact, T.WellFormed, NodeOk, Children, MemOwing, EntriesOk;
    MemBasics(t, None);
    assert TreeOf(t') == TreeOf(t);
    assert EntriesOk(t') by { SameEntries(t, t'); }
    MemOkIs(t');
  }

  lemma SameEntries(t: Mem, t': Mem)
    requires EntriesOk(t) && t'.slots == t.slots
    ensures EntriesOk(t')
  {
    assert forall p, n :: EntryOf(t', p, n) == EntryOf(t, p, n);
  }

  // ---------- file content ----------

  /** Writing and truncating a file leave the hierarchy and the counts alone. */
  lemma BytesKeep(t: Mem, id: nat, bytes: seq<Byte>)
    requires MemOk(t)
    ensures MemOk(Step(t, SetBytes(id, bytes))) && TreeOf(Step(t, SetBytes(id, bytes))) == TreeOf(t)
  {
    hide Exact, T.WellFormed, T.Namings, Subdirectories;
    if id in t.slots && t.slots[id].payload.content.File? {
      var t' := Step(t, SetBytes(id, bytes));
      WriteKeepsExact(t, id, t.slots[id].payload.(content := File(bytes)));
      assert TreeOf(t') == TreeOf(t);
      assert forall p, n :: EntryOf(t', p, n) == EntryOf(t, p, n);
      forall i | i in t'.slots ensures NodeOk(TreeOf(t'), i, t'.slots[i], 0) {
        NodeIs(t, i, None);
      }
    }
  }

  // ---------- every run ----------

  /** A call that is refused, or a rename of a name to another name of the same object: seen before the call. */
  predicate Declined(t: Mem, call: Call)
  {
    match call
    case Make(p, n, _, _) => CheckNewEntry(t, p, n).Some?
    case Link(id, p, n) =>
      KindOf(t, id) == Err(ENOENT) || KindOf(t, id) == Ok(DirectoryKind) || CheckNewEntry(t, p, n).Some?
    case Rename(p, n, q, m) => RenameDeclined(t, p, n, q, m)
    case _ => false
  }

  lemma DeclinedCreates(t: Mem, p: nat, n: Name, kind: FileKind, content: Content)
    ensures CreateChild(t, p, n, kind, content).1.Ok? <==> CheckNewEntry(t, p, n).None?
    ensures CheckNewEntry(t, p, n).Some? ==> CreateChild(t, p, n, kind, content).0 == t
  {}

  lemma DeclinedLinks(t: Mem, id: nat, p: nat, n: Name)
    ensures LinkEntry(t, id, p, n).1.Err? <==> Declined(t, Link(id, p, n))
  {}

  /** A call keeps the tree and its counts if and only if the caller does its part, or the call is declined. */
  lemma StepKeepsExactly(t: Mem, call: Call)
    requires MemOk(t)
    ensures MemOk(Step(t, call)) <==> Polite(t, call) || Declined(t, call)
    ensures Declined(t, call) ==> Step(t, call) == t
  {
    hide MemOwing, Exact, TreeOf, T.Linked, CreateChild, UnlinkEntry, RmdirEntry, LinkEntry, RenameEntry, IntoItself,
      Apply, T.Rename, CheckNewEntry, RenameDeclined;
    match call
    case Make(p, n, kind, target) =>
      DeclinedCreates(t, p, n, kind, FreshContent(kind, target));
      if CreateChild(t, p, n, kind, FreshContent(kind, target)).1.Ok? {
        CreateKeepsExactly(t, p, n, kind, FreshContent(kind, target));
      }
    case Unlink(p, n) => UnlinkRefines(t, p, n);
    case Rmdir(p, n) => RmdirRefines(t, p, n);
    case Link(id, p, n) =>
      DeclinedLinks(t, id, p, n);
      LinkRefines(t, id, p, n);
    case Rename(p, n, q, m) =>
      DeclinedChangesNothing(t, p, n, q, m);
      if Moves(t, p, n, q, m) { MovesRefines(t, p, n, q, m); }
    case SetBytes(id, bytes) => BytesKeep(t, id, bytes);
    case Count(op) => if OnlyCounts(op) { CountingKeeps(t, op); }
  }

  function RunAll(calls: seq<Call>): Mem
  {
    if calls == [] then EMPTY else Step(RunAll(calls[..|calls| - 1]), calls[|calls| - 1])
  }

  ghost predicate PoliteRun(calls: seq<Call>)
  {
    calls == [] ||
    var (before, last) := (calls[..|calls| - 1], calls[|calls| - 1]);
    PoliteRun(before) && (Polite(RunAll(before), last) || Declined(RunAll(before), last))
  }

  lemma EmptyIsOk()
    ensures MemOk(EMPTY)
  {
    var root := NewNode(DirectoryKind, Dir(map[]));
    InitialIsExact(root);
    var tree := TreeOf(EMPTY);
    assert tree == map[ROOT := T.Directory(map[])] by {
      assert Children(map[]) == map[];
    }
    assert T.WellFormed(tree) by {
      assert T.Ranked(tree, map[ROOT := 0]);
    }
    assert Subdirectories(tree, ROOT) == {};
    assert NodeOk(tree, ROOT, EMPTY.slots[ROOT], 0);
  }

  /** From an empty filesystem, every run whose caller does its part leaves a tree with exact counts. */
  lemma {:induction false} RunsStayTrees(calls: seq<Call>)
    requires PoliteRun(calls)
    ensures MemOk(RunAll(calls))
  {
    hide MemOwing, Polite, Declined, Step;
    if calls == [] {
      EmptyIsOk();
    } else {
      RunsStayTrees(calls[..|calls| - 1]);
      StepKeepsExactly(RunAll(calls[..|calls| - 1]), calls[|calls| - 1]);
    }
  }

  /**
   * In a tree with exact counts, a linked directory has one entry, its parent (hence `..`) is the directory of that
   * entry, and its link count is two and its subdirectories, which goes for the root too; a file's link count is its
   * entries. A node with no entry is still there only because it is looked up, open or leased.
   */
  lemma WhatCountsMean(t: Mem, id: nat)
    requires MemOk(t) && id in t.slots
    ensures id == ROOT ==> t.slots[id].links == 1 && t.slots[id].payload.nlink == 2 + |Subdirectories(TreeOf(t), id)|
    ensures id != ROOT ==>
            var slot, names := t.slots[id], T.Namings(TreeOf(t), id);
            && slot.links == |names|
            && (names == {} ==> slot.lookups > 0 || slot.opens > 0 || slot.leases > 0)
            && (slot.payload.content.Dir? && names != {} ==>
                  && (exists n :: names == {(slot.parent, n)}
                       && EntryOf(t, slot.parent, n) == Ok(DirEntry(id, DirectoryKind)))
                  && slot.payload.nlink == 2 + |Subdirectories(TreeOf(t), id)|)
            && (!slot.payload.content.Dir? ==> slot.payload.nlink == |names|)
  {
    hide T.WellFormed, Subdirectories, TreeOf, T.Namings;
    var tree, slot := TreeOf(t), t.slots[id];
    MemBasics(t, None);
    TreeChildren(t);
    assert NodeOk(tree, id, slot, 0);
    LiveIsUsed(t, id);
    NoNames(tree, id);
    if id != ROOT && slot.payload.content.Dir? && T.Namings(tree, id) != {} {
      NamingsAre(tree, id);
      var e: (nat, Name) :| e in T.Namings(tree, id);
      NamedDirectoryOnce(tree, e.0, e.1);
      assert (e.0, e.1) in T.Namings(tree, id);
      EntryFacts(t, e.0, e.1);
      assert EntryOf(t, slot.parent, e.1) == Ok(DirEntry(id, DirectoryKind));
    }
  }

  // ---------- nodes in use outlive their names ----------

  predicate InUse(slot: Slot<Node>)
  {
    slot.lookups > 0 || slot.opens > 0 || slot.leases > 0
  }

  /** The same incarnation is still there, as much in use as before, with its content unless it is a directory. */
  predicate Survives(t: Mem, t': Mem, id: nat)
    requires id in t.slots
  {
    && id in t'.slots
    && var s, s' := t.slots[id], t'.slots[id];
       && s'.record == s.record && s'.lookups == s.lookups && s'.opens == s.opens && s'.leases == s.leases
       && (s.payload.content.Dir? || s'.payload.content == s.payload.content)
  }

  lemma SurvivesTwice(t: Mem, t': Mem, t'': Mem, id: nat)
    requires id in t.slots && Survives(t, t', id) && Survives(t', t'', id)
    ensures Survives(t, t'', id)
  {}

  lemma EditsSurvived(t: Mem, id: nat, p: nat, n: Name, e: DirEntry, nlink: nat)
    requires id in t.slots
    ensures Survives(t, WithEntry(t, p, n, e), id) && Survives(t, WithoutEntry(t, p, n), id)
    ensures Survives(t, WithNlink(t, p, nlink), id) && Survives(t, AddLink(t, p), id)
    ensures InUse(t.slots[id]) ==> Survives(t, RemoveLink(t, p), id)
  {}

  lemma SurvivesInUse(t: Mem, t': Mem, id: nat)
    requires id in t.slots && Survives(t, t', id)
    ensures id in t'.slots && InUse(t'.slots[id]) == InUse(t.slots[id])
  {}

  lemma SurvivesCreate(t: Mem, p: nat, n: Name, kind: FileKind, content: Content, id: nat)
    requires Exact(t) && id in t.slots
    ensures Survives(t, CreateChild(t, p, n, kind, content).0, id)
  {
    hide Exact, Insert, WithEntry, WithNlink;
    var (ino, t1) := Insert(t, NewNode(kind, content), p);
    InsertAddsOne(t, NewNode(kind, content), p);
    assert Survives(t, t1, id);
    var e := DirEntry(ino, kind);
    var t2 := WithEntry(t1, p, n, e);
    EditsSurvived(t1, id, p, n, e, 0);
    EditsSurvived(t2, id, p, n, e, NlinkOf(t2, p) + 1);
  }

  lemma SurvivesUnlink(t: Mem, p: nat, n: Name, id: nat)
    requires id in t.slots && InUse(t.slots[id])
    ensures Survives(t, UnlinkEntry(t, p, n).0, id)
  {
    hide WithoutEntry, WithNlink, RemoveLink, Survives, InUse;
    if UnlinkEntry(t, p, n).1.Ok? {
      var e := EntryOf(t, p, n).value;
      var t1 := WithoutEntry(t, p, n);
      var t2 := OneLess(t1, e.id);
      EditsSurvived(t, id, p, n, e, 0);
      SurvivesInUse(t, t1, id);
      EditsSurvived(t1, id, e.id, n, e, SaturatingSub(NlinkOf(t1, e.id), 1));
      SurvivesInUse(t1, t2, id);
      EditsSurvived(t2, id, e.id, n, e, 0);
      SurvivesTwice(t, t1, t2, id);
      SurvivesTwice(t, t2, RemoveLink(t2, e.id), id);
    } else {
      Unchanged(t, id);
    }
  }

  lemma Unchanged(t: Mem, id: nat)
    requires id in t.slots
    ensures Survives(t, t, id)
  {}

  lemma SurvivesRmdir(t: Mem, p: nat, n: Name, id: nat)
    requires id in t.slots && InUse(t.slots[id])
    ensures Survives(t, RmdirEntry(t, p, n).0, id)
  {
    hide WithoutEntry, WithNlink, RemoveLink, Survives, InUse;
    if RmdirEntry(t, p, n).1.Ok? {
      var e := EntryOf(t, p, n).value;
      var t1 := WithoutEntry(t, p, n);
      var t2 := OneLess(t1, p);
      var t3 := WithNlink(t2, e.id, 0);
      EditsSurvived(t, id, p, n, e, 0);
      SurvivesInUse(t, t1, id);
      EditsSurvived(t1, id, p, n, e, SaturatingSub(NlinkOf(t1, p), 1));
      SurvivesInUse(t1, t2, id);
      EditsSurvived(t2, id, e.id, n, e, 0);
      SurvivesInUse(t2, t3, id);
      EditsSurvived(t3, id, e.id, n, e, 0);
      SurvivesTwice(t, t1, t2, id);
      SurvivesTwice(t, t2, t3, id);
      SurvivesTwice(t, t3, RemoveLink(t3, e.id), id);
    } else {
      Unchanged(t, id);
    }
  }

  lemma SurvivesLink(t: Mem, o: nat, p: nat, n: Name, id: nat)
    requires id in t.slots
    ensures Survives(t, LinkEntry(t, o, p, n).0, id)
  {
    hide WithEntry, WithNlink, AddLink, Survives;
    if LinkEntry(t, o, p, n).1.Ok? {
      var e := DirEntry(o, KindOf(t, o).value);
      var t1 := WithEntry(t, p, n, e);
      var t2 := AddLink(t1, o);
      EditsSurvived(t, id, p, n, e, 0);
      assert id in t1.slots by { SurvivesInUse(t, t1, id); }
      EditsSurvived(t1, id, o, n, e, 0);
      assert id in t2.slots by { SurvivesInUse(t1, t2, id); }
      EditsSurvived(t2, id, o, n, e, NlinkOf(t2, o) + 1);
      SurvivesTwice(t, t1, t2, id);
      SurvivesTwice(t, t2, OneMore(t2, o), id);
    } else {
      Unchanged(t, id);
    }
  }

  lemma SurvivesRename(t: Mem, p: nat, n: Name, q: nat, m: Name, id: nat)
    requires MemOk(t) && id in t.slots && InUse(t.slots[id])
    ensures Survives(t, RenameEntry(t, p, n, q, m).0, id)
  {
    hide MemOwing, RenameEntry, BeforeRemoval, RemoveLink, Moves;
    if Moves(t, p, n, q, m) {
      RenameIs(t, p, n, q, m);
      var t3 := BeforeRemoval(t, p, n, q, m);
      WritesKeepLinks(t, p, n, q, m);
      assert Survives(t, t3, id);
      if EntryOf(t, q, m).Ok? {
        var g := EntryOf(t, q, m).value;
        EditsSurvived(t3, id, g.id, m, g, 0);
        SurvivesTwice(t, t3, RemoveLink(t3, g.id), id);
      }
    } else {
      RefusedOrNothing(t, p, n, q, m);
      Unchanged(t, id);
    }
  }

  /** A write is seen by those who use the node; every other node keeps its content. */
  lemma SurvivesBytes(t: Mem, o: nat, bytes: seq<Byte>, id: nat)
    requires id in t.slots
    ensures var t' := Step(t, SetBytes(o, bytes));
            && id in t'.slots && t'.slots[id] == t.slots[id].(payload := t'.slots[id].payload)
            && (id != o ==> Survives(t, t', id))
  {}

  /** The runtime's counting leaves all other nodes alone, and reclaims a node only when its last use is given up. */
  lemma SurvivesCounting(t: Mem, op: Op<Node>, id: nat)
    requires id in t.slots && InUse(t.slots[id])
    ensures var t' := Step(t, Count(op));
            && ((OnlyCounts(op) && InodeOf(op) == id) || Survives(t, t', id))
            && (id in t'.slots ==>
                 t'.slots[id].record == t.slots[id].record && t'.slots[id].payload == t.slots[id].payload)
            && (id !in t'.slots ==> (op.OpDropRef? || op.OpForget? || op.OpRemoveOpen?) && t.slots[id].links == 0)
  {}

  /** The call gives up or writes what its users have of the node: a write to it, or the end of one of its uses. */
  predicate Concerns(call: Call, id: nat)
  {
    || (call.SetBytes? && call.id == id)
    || (call.Count? && OnlyCounts(call.op) && InodeOf(call.op) == id)
  }

  /**
   * No call takes a node away from those who use it, nor its incarnation, counts or file content, but for a write to
   * it and the counting of its own uses. A write keeps the node, and the counting takes it away only
   * with its last use and when no entry names it.
   */
  lemma NodesInUseSurvive(t: Mem, call: Call, id: nat)
    requires MemOk(t) && id in t.slots && InUse(t.slots[id])
    ensures Concerns(call, id) || Survives(t, Step(t, call), id)
    ensures call.SetBytes? ==>
              && id in Step(t, call).slots
              && Step(t, call).slots[id] == t.slots[id].(payload := Step(t, call).slots[id].payload)
    ensures call.Count? && id in Step(t, call).slots ==>
              && Step(t, call).slots[id].record == t.slots[id].record
              && Step(t, call).slots[id].payload == t.slots[id].payload
    ensures id !in Step(t, call).slots ==>
              call.Count? && (call.op.OpDropRef? || call.op.OpForget? || call.op.OpRemoveOpen?)
                && t.slots[id].links == 0
  {
    hide MemOwing, Survives, CreateChild, UnlinkEntry, RmdirEntry, LinkEntry, RenameEntry, Apply;
    SurvivesMeansLive(t, Step(t, call), id);
    match call
    case Make(p, n, kind, target) =>
      assert Exact(t) by { MemBasics(t, None); }
      SurvivesCreate(t, p, n, kind, FreshContent(kind, target), id);
    case Unlink(p, n) => SurvivesUnlink(t, p, n, id);
    case Rmdir(p, n) => SurvivesRmdir(t, p, n, id);
    case Link(o, p, n) => SurvivesLink(t, o, p, n, id);
    case Rename(p, n, q, m) => SurvivesRename(t, p, n, q, m, id);
    case SetBytes(o, bytes) => SurvivesBytes(t, o, bytes, id);
    case Count(op) => SurvivesCounting(t, op, id);
  }

  lemma SurvivesMeansLive(t: Mem, t': Mem, id: nat)
    requires id in t.slots
    ensures Survives(t, t', id) ==> id in t'.slots
  {}
}
