/** fuse3/examples/memory_fs.rs: `rename`, with every kind of entry it replaces. */
module MemoryRename {
  import opened Base
  import opened Nodes
  import opened MemoryFs
  import opened MemoryTree

  /** Moving a name onto a free or replaceable one: what names and subdirectories there are then. */
  lemma MovedCounts(t: Tree, p: nat, n: Name, q: nat, m: Name, o: nat)
    requires ChildIs(t, p, n, o) && T.IsDir(t, q) && !ChildIs(t, q, m, o)
    ensures var t', g := T.Move(t, p, n, q, m, o), T.Child(t, q, m);
            && NamesOf(t', o) == NamesOf(t, o)
            && T.Namings(t', o) == (T.Namings(t, o) - {(p, n)}) + {(q, m)}
            && (forall x | x != o && g != Some(x) :: T.Namings(t', x) == T.Namings(t, x))
            && (g.Some? ==>
                  && NamesOf(t', g.value) == NamesOf(t, g.value) - 1
                  && T.Namings(t', g.value) == T.Namings(t, g.value) - {(q, m)})
            && forall x :: SubdirsOf(t', x) + Bit(x == p && T.IsDir(t, o)) + Bit(x == q && ChildIsDir(t, q, m))
                           == SubdirsOf(t, x) + Bit(x == q && T.IsDir(t, o))
  {
    hide T.Namings, Subdirectories;
    var mid := T.Unbind(t, p, n);
    var t' := T.Bind(mid, q, m, o);
    UnboundCounts(t, p, n, o);
    T.UnbindChild(t, p, n);
    T.BindChild(mid, q, m, o);
    assert T.Child(mid, q, m) == T.Child(t, q, m);
    NamesChange(t, mid, p, n, o);
    NamesChange(mid, t', q, m, o);
    forall x | x != o
      ensures T.Child(t, q, m) != Some(x) ==> T.Namings(t', x) == T.Namings(t, x)
      ensures T.Child(t, q, m) == Some(x) ==>
                NamesOf(t', x) == NamesOf(t, x) - 1 && T.Namings(t', x) == T.Namings(t, x) - {(q, m)}
    {
      NamesChange(mid, t', q, m, x);
      NamingsAre(mid, x);
    }
    forall x
      ensures SubdirsOf(t', x) + Bit(x == q && ChildIsDir(t, q, m)) == SubdirsOf(mid, x) + Bit(x == q && T.IsDir(t, o))
    {
      SubdirsChange(mid, t', q, m, x);
    }
  }

  /** What the writes of a rename do to the slot `s` of `x`. */
  predicate RenamedSlot(s: Slot<Node>, s': Slot<Node>, x: nat, p: nat, q: nat, target: DirEntry, gone: Option<DirEntry>)
  {
    var dir, moved := target.kind == DirectoryKind, p != q;
    var goneDir := gone.Some? && gone.value.kind == DirectoryKind;
    && s'.links == s.links && s'.payload.kind == s.payload.kind
    && s'.parent == (if dir && moved && x == target.id then q else s.parent)
    && s'.payload.content.Dir? == s.payload.content.Dir?
    && (x != p && x != q ==> s'.payload.content == s.payload.content)
    && (if gone.Some? && x == gone.value.id then s'.payload.nlink == if goneDir then 0 else s.payload.nlink - 1
        else s'.payload.nlink + Bit(dir && moved && x == p) + Bit(goneDir && x == q)
             == s.payload.nlink + Bit(dir && moved && x == q))
  }

  ghost predicate RenamedSlots(t: Mem, t': Mem, p: nat, q: nat, target: DirEntry, gone: Option<DirEntry>)
  {
    t'.slots.Keys == t.slots.Keys
    && forall x | x in t.slots :: RenamedSlot(t.slots[x], t'.slots[x], x, p, q, target, gone)
  }

  lemma SlotRenamed(t: Mem, t': Mem, p: nat, q: nat, target: DirEntry, gone: Option<DirEntry>, x: nat)
    requires RenamedSlots(t, t', p, q, target, gone) && x in t.slots
    ensures x in t'.slots && RenamedSlot(t.slots[x], t'.slots[x], x, p, q, target, gone)
  {}

  lemma EnteredTree(t: Mem, p: nat, n: Name, q: nat, m: Name, target: DirEntry)
    requires Exact(t)
    ensures var t2 := Entered(WithoutEntry(t, p, n), p, q, m, target);
            Exact(t2) && TreeOf(t2) == T.Move(TreeOf(t), p, n, q, m, target.id)
  {
    hide Exact, TreeOf, WithoutEntry, WithEntry, WithNlink, Reparent, Apply;
    var t1 := WithoutEntry(t, p, n);
    var ta := WithEntry(t1, q, m, target);
    var tb := Reparent(ta, target.id, q);
    var tc := OneLess(tb, p);
    WritesOnTree(t, p, n, target);
    WritesOnTree(t1, q, m, target);
    EditsKeepExact(t, p, n, target, 0);
    EditsKeepExact(t1, q, m, target, 0);
    CountsOffTree(ta, target.id, 0, q);
    ReparentIsExact(ta, target.id, q);
    CountsOffTree(tb, p, SaturatingSub(NlinkOf(tb, p), 1), q);
    EditsKeepExact(tb, p, n, target, SaturatingSub(NlinkOf(tb, p), 1));
    CountsOffTree(tc, q, NlinkOf(tc, q) + 1, q);
    EditsKeepExact(tc, q, n, target, NlinkOf(tc, q) + 1);
  }

  lemma ReparentIsExact(t: Mem, id: nat, parent: nat)
    requires Exact(t)
    ensures Exact(Reparent(t, id, parent))
  {
    ApplyIsExact(t, OpReparent(id, parent));
  }

  lemma EnteredSlots(t: Mem, p: nat, n: Name, q: nat, m: Name, target: DirEntry)
    requires target.id in t.slots && p in t.slots && q in t.slots
    requires t.slots[p].payload.content.Dir? && t.slots[q].payload.content.Dir?
    requires NlinkOf(t, p) >= 1 && target.id != p && target.id != q
    ensures RenamedSlots(t, Entered(WithoutEntry(t, p, n), p, q, m, target), p, q, target, None)
  {}

  lemma DisownedTree(t: Mem, q: nat, gone: DirEntry)
    requires Exact(t)
    ensures var t' := Disowned(t, q, gone); Exact(t') && TreeOf(t') == TreeOf(t)
  {
    hide Exact, TreeOf, WithNlink;
    var ta := if gone.kind == DirectoryKind then OneLess(t, q) else t;
    var name: Name := [];
    CountsOffTree(t, q, SaturatingSub(NlinkOf(t, q), 1), q);
    EditsKeepExact(t, q, name, gone, SaturatingSub(NlinkOf(t, q), 1));
    CountsOffTree(ta, gone.id, 0, q);
    EditsKeepExact(ta, gone.id, name, gone, 0);
    CountsOffTree(ta, gone.id, SaturatingSub(NlinkOf(ta, gone.id), 1), q);
    EditsKeepExact(ta, gone.id, name, gone, SaturatingSub(NlinkOf(ta, gone.id), 1));
  }

  lemma DisownedSlots(t: Mem, t2: Mem, p: nat, q: nat, target: DirEntry, gone: DirEntry)
    requires RenamedSlots(t, t2, p, q, target, None)
    requires gone.id in t.slots && q in t.slots && gone.id != p && gone.id != q
    requires NlinkOf(t2, q) >= 1 && NlinkOf(t, gone.id) >= 1
    ensures RenamedSlots(t, Disowned(t2, q, gone), p, q, target, Some(gone))
  {}

  lemma CountsKeepEntries(t: Mem, q: nat, gone: DirEntry)
    ensures forall x, y :: EntryOf(Disowned(t, q, gone), x, y) == EntryOf(t, x, y)
  {}

  /** The rename succeeds, and not because both names are links to one object already. */
  predicate Moves(t: Mem, p: nat, n: Name, q: nat, m: Name)
  {
    && RenameEntry(t, p, n, q, m).1.Ok?
    && !(EntryOf(t, q, m).Ok? && EntryOf(t, q, m).value.id == EntryOf(t, p, n).value.id)
  }

  /** The table when the replaced entry's link is all that is left to remove. */
  function BeforeRemoval(t: Mem, p: nat, n: Name, q: nat, m: Name): Mem
    requires EntryOf(t, p, n).Ok?
  {
    var t2 := Entered(WithoutEntry(t, p, n), p, q, m, EntryOf(t, p, n).value);
    if EntryOf(t, q, m).Ok? then Disowned(t2, q, EntryOf(t, q, m).value) else t2
  }

  /** When a rename fails, or finds both names to be links to one object: what can be seen before the call. */
  predicate RenameDeclined(t: Mem, p: nat, n: Name, q: nat, m: Name)
  {
    var source, existing := EntryOf(t, p, n), EntryOf(t, q, m);
    || source.Err?
    || KindOf(t, source.value.id).Err?
    || (existing.Err? && existing.error != ENOENT)
    || (existing.Ok? && existing.value.id == source.value.id)
    || (existing.Ok? && ReplaceRefusal(t, existing.value.id, KindOf(t, source.value.id).value == DirectoryKind).Some?)
  }

  lemma DeclinedChangesNothing(t: Mem, p: nat, n: Name, q: nat, m: Name)
    ensures Moves(t, p, n, q, m) <==> !RenameDeclined(t, p, n, q, m)
    ensures RenameDeclined(t, p, n, q, m) ==> RenameEntry(t, p, n, q, m).0 == t
  {}

  lemma RenameIs(t: Mem, p: nat, n: Name, q: nat, m: Name)
    requires MemOk(t) && Moves(t, p, n, q, m)
    ensures EntryOf(t, p, n).Ok?
    ensures var gone := EntryOf(t, q, m);
            RenameEntry(t, p, n, q, m).0 ==
              if gone.Ok? then RemoveLink(BeforeRemoval(t, p, n, q, m), gone.value.id) else BeforeRemoval(t, p, n, q, m)
  {
    hide MemOwing, Entered, Disowned, RemoveLink;
    EntryFacts(t, p, n);
    assert EntryOf(WithoutEntry(t, p, n), q, m) == EntryOf(t, q, m);
  }

  /** What is known of the objects of a rename: what is replaced is neither parent, nor the object moved. */
  lemma RenameFacts(t: Mem, p: nat, n: Name, q: nat, m: Name)
    requires MemOk(t) && Moves(t, p, n, q, m) && q in t.slots
    ensures var tree, target, gone := TreeOf(t), EntryOf(t, p, n).value, EntryOf(t, q, m);
            && t.slots[p].payload.content.Dir? && t.slots[q].payload.content.Dir? && target.id in t.slots
            && target.id != p && T.Child(tree, p, n) == Some(target.id) && !ChildIs(tree, q, m, target.id)
            && (target.kind == DirectoryKind <==> T.IsDir(tree, target.id)) && T.Replaceable(tree, q, m)
            && (gone.Ok? ==>
                  && gone.value.id in t.slots && gone.value.id != p && gone.value.id != q && gone.value.id != target.id
                  && gone.value.id != ROOT && T.Child(tree, q, m) == Some(gone.value.id)
                  && (gone.value.kind == DirectoryKind <==> T.IsDir(tree, gone.value.id))
                  && (t.slots[gone.value.id].payload.content.Dir? ==>
                       t.slots[gone.value.id].payload.content.entries == map[])
                  && (gone.value.kind == DirectoryKind <==> target.kind == DirectoryKind))
            && (gone.Err? ==> T.Child(tree, q, m) == None)
  {
    hide MemOwing, T.WellFormed, TreeOf;
    var tree := TreeOf(t);
    MemBasics(t, None);
    TreeChildren(t);
    EntryFacts(t, p, n);
    NoChildIsItself(tree, p, n);
    if EntryOf(t, q, m).Ok? {
      EntryFacts(t, q, m);
      NoChildIsItself(tree, q, m);
      var g := EntryOf(t, q, m).value.id;
      if t.slots[g].payload.content.Dir? { EmptyObject(t, g); }
    }
  }

  lemma NoChildIsItself(t: Tree, p: nat, n: Name)
    requires T.WellFormed(t)
    ensures !ChildIs(t, p, n, p)
  {
    var rank :| T.Ranked(t, rank);
  }

  /** The names after a rename are those of the hierarchy with the name moved, whatever else is wrong with it. */
  lemma RenamedTree(t: Mem, p: nat, n: Name, q: nat, m: Name)
    requires MemOk(t) && Moves(t, p, n, q, m)
    ensures var t3 := BeforeRemoval(t, p, n, q, m);
            Exact(t3) && TreeOf(t3) == T.Move(TreeOf(t), p, n, q, m, EntryOf(t, p, n).value.id)
  {
    hide MemOwing, Exact, Entered, Disowned, TreeOf, RenameEntry, WithoutEntry;
    RenameIs(t, p, n, q, m);
    var target := EntryOf(t, p, n).value;
    assert Exact(t) by { MemBasics(t, None); }
    EnteredTree(t, p, n, q, m, target);
    if EntryOf(t, q, m).Ok? {
      DisownedTree(Entered(WithoutEntry(t, p, n), p, q, m, target), q, EntryOf(t, q, m).value);
    }
  }

  predicate SlotKept(s: Slot<Node>, s': Slot<Node>, writable: bool)
  {
    && s'.record == s.record && s'.links == s.links
    && s'.lookups == s.lookups && s'.opens == s.opens && s'.leases == s.leases
    && s'.payload.content.Dir? == s.payload.content.Dir?
    && ((writable && s.payload.content.Dir?) || s'.payload.content == s.payload.content)
  }

  /** Every count of the runtime is as it was, and the content of all but two directories. */
  ghost predicate KeepsLinks(t: Mem, t': Mem, p: nat, q: nat)
  {
    t'.slots.Keys == t.slots.Keys && forall x | x in t.slots :: SlotKept(t.slots[x], t'.slots[x], x == p || x == q)
  }

  lemma EditsKeepLinks(t: Mem, p: nat, q: nat, n: Name, e: DirEntry, id: nat, nlink: nat)
    ensures KeepsLinks(t, WithEntry(t, q, n, e), p, q) && KeepsLinks(t, WithoutEntry(t, p, n), p, q)
    ensures KeepsLinks(t, WithNlink(t, id, nlink), p, q) && KeepsLinks(t, Reparent(t, id, q), p, q)
  {
    if q in t.slots { StoringKeepsLinks(t, p, q, q, WithEntry(t, q, n, e).slots[q]); }
    if p in t.slots { StoringKeepsLinks(t, p, q, p, WithoutEntry(t, p, n).slots[p]); }
    if id in t.slots {
      StoringKeepsLinks(t, p, q, id, WithNlink(t, id, nlink).slots[id]);
      StoringKeepsLinks(t, p, q, id, Reparent(t, id, q).slots[id]);
    }
  }

  lemma StoringKeepsLinks(t: Mem, p: nat, q: nat, id: nat, slot: Slot<Node>)
    requires id in t.slots && SlotKept(t.slots[id], slot, id == p || id == q)
    ensures KeepsLinks(t, Store(t, id, slot), p, q)
  {}

  lemma KeptTwice(t: Mem, t': Mem, t'': Mem, p: nat, q: nat)
    requires KeepsLinks(t, t', p, q) && KeepsLinks(t', t'', p, q)
    ensures KeepsLinks(t, t'', p, q)
  {}

  /** The writes of a rename leave every count of the runtime alone, and the content of all but the two parents. */
  lemma WritesKeepLinks(t: Mem, p: nat, n: Name, q: nat, m: Name)
    requires EntryOf(t, p, n).Ok?
    ensures KeepsLinks(t, BeforeRemoval(t, p, n, q, m), p, q)
  {
    hide WithEntry, WithoutEntry, WithNlink, Reparent, EntryOf, KeepsLinks;
    var target, gone := EntryOf(t, p, n).value, EntryOf(t, q, m);
    var t1 := WithoutEntry(t, p, n);
    var t2 := Entered(t1, p, q, m, target);
    EditsKeepLinks(t, p, q, n, target, 0, 0);
    EnteringKeepsLinks(t1, p, q, m, target);
    KeptTwice(t, t1, t2, p, q);
    if gone.Ok? {
      DisowningKeepsLinks(t2, p, q, gone.value);
      KeptTwice(t, t2, Disowned(t2, q, gone.value), p, q);
    }
  }

  lemma EnteringKeepsLinks(t: Mem, p: nat, q: nat, m: Name, target: DirEntry)
    ensures KeepsLinks(t, Entered(t, p, q, m, target), p, q)
  {
    hide WithEntry, WithNlink, Reparent, KeepsLinks;
    var ta := WithEntry(t, q, m, target);
    var tb := Reparent(ta, target.id, q);
    var tc := OneLess(tb, p);
    EditsKeepLinks(t, p, q, m, target, 0, 0);
    EditsKeepLinks(ta, p, q, m, target, target.id, 0);
    EditsKeepLinks(tb, p, q, m, target, p, SaturatingSub(NlinkOf(tb, p), 1));
    EditsKeepLinks(tc, p, q, m, target, q, NlinkOf(tc, q) + 1);
    KeptTwice(t, ta, tb, p, q);
    KeptTwice(t, tb, tc, p, q);
    KeptTwice(t, tc, OneMore(tc, q), p, q);
  }

  lemma DisowningKeepsLinks(t: Mem, p: nat, q: nat, gone: DirEntry)
    ensures KeepsLinks(t, Disowned(t, q, gone), p, q)
  {
    hide WithNlink, KeepsLinks;
    var name: Name := [];
    var ta := OneLess(t, q);
    EditsKeepLinks(t, p, q, name, gone, q, SaturatingSub(NlinkOf(t, q), 1));
    EditsKeepLinks(t, p, q, name, gone, gone.id, SaturatingSub(NlinkOf(t, gone.id), 1));
    EditsKeepLinks(ta, p, q, name, gone, gone.id, 0);
    KeptTwice(t, ta, WithNlink(ta, gone.id, 0), p, q);
  }

  /** What the removal of a replaced entry's link takes from the hierarchy: nothing that is named or holds anything. */
  lemma RenamedHierarchy(t: Mem, p: nat, n: Name, q: nat, m: Name)
    requires MemOk(t) && Moves(t, p, n, q, m) && q in t.slots
    ensures var tree, t' := TreeOf(t), RenameEntry(t, p, n, q, m).0;
            var moved := T.Move(tree, p, n, q, m, EntryOf(t, p, n).value.id);
            && TreeOf(t') == Restrict(moved, t'.slots.Keys)
            && (T.WellFormed(TreeOf(t')) <==> T.WellFormed(moved))
            && t'.slots.Keys <= t.slots.Keys
            && forall x: nat, y: Name :: T.Child(TreeOf(t'), x, y) == T.Child(moved, x, y)
  {
    hide MemOwing, Exact, T.WellFormed, TreeOf, RenameEntry, BeforeRemoval, RemoveLink, T.Move, T.Namings,
      Subdirectories, NodeOk, EntriesOk, T.Replaceable, KeepsLinks, EntryOf;
    RenameIs(t, p, n, q, m);
    var t3, t' := BeforeRemoval(t, p, n, q, m), RenameEntry(t, p, n, q, m).0;
    var tree, target, gone := TreeOf(t), EntryOf(t, p, n).value, EntryOf(t, q, m);
    MemBasics(t, None);
    RenamedTree(t, p, n, q, m);
    RenameFacts(t, p, n, q, m);
    WritesKeepLinks(t, p, n, q, m);
    TreeBasics(t);
    TreeChildren(t);
    T.MoveChild(tree, p, n, q, m, target.id);
    KeptSlot(t, t3, p, q, ROOT);
    if gone.Ok? {
      var g := gone.value.id;
      MovedCounts(tree, p, n, q, m, target.id);
      NamedIsLinked(t, q, m, g);
      KeptSlot(t, t3, p, q, g);
      LinkTaken(t3, g);
      NoNames(TreeOf(t3), g);
      assert forall x: nat, y: Name | T.Child(TreeOf(t3), x, y).Some? :: T.Child(TreeOf(t3), x, y).value in t3.slots;
      DroppedTree(t3, t', g);
    } else {
      assert TreeOf(t') == Restrict(TreeOf(t3), t'.slots.Keys) by { TreeKeys(t3); }
    }
  }

  lemma KeptSlot(t: Mem, t': Mem, p: nat, q: nat, x: nat)
    requires KeepsLinks(t, t', p, q) && x in t.slots
    ensures t'.slots.Keys == t.slots.Keys && SlotKept(t.slots[x], t'.slots[x], x == p || x == q)
  {}

  lemma NamedIsLinked(t: Mem, q: nat, m: Name, g: nat)
    requires MemOk(t) && ChildIs(TreeOf(t), q, m, g) && g in t.slots && g != ROOT
    ensures t.slots[g].links == NamesOf(TreeOf(t), g) > 0
  {
    hide Exact, T.WellFormed, T.Namings, Subdirectories, TreeOf;
    NodeIs(t, g, None);
    NamingsAre(TreeOf(t), g);
    assert (q, m) in T.Namings(TreeOf(t), g);
  }

  lemma TreeKeys(t: Mem)
    ensures TreeOf(t).Keys == t.slots.Keys
  {}

  // ---------- the counts after a rename that is in order ----------

  /** A directory would be moved beneath itself. */
  ghost predicate IntoItself(t: Tree, p: nat, n: Name, q: nat)
  {
    T.IsDir(t, q) && ChildIsDir(t, p, n) && T.Beneath(t, T.Child(t, p, n).value, q)
  }

  function Gone(t: Mem, q: nat, m: Name): Option<DirEntry>
  {
    match EntryOf(t, q, m) case Ok(e) => Some(e) case Err(_) => None
  }

  lemma NamedNode(t: Mem, q: nat, m: Name)
    requires MemOk(t) && EntryOf(t, q, m).Ok?
    ensures var g := EntryOf(t, q, m).value.id;
            && g in t.slots && t.slots[g].links == NamesOf(TreeOf(t), g) >= 1 && NlinkOf(t, g) >= 1
            && q in t.slots && NlinkOf(t, q) >= 2
  {
    hide Exact, T.WellFormed, T.Namings, Subdirectories, TreeOf;
    EntryFacts(t, q, m);
    var g := EntryOf(t, q, m).value.id;
    NamedIsLinked(t, q, m, g);
    NodeIs(t, g, None);
    NodeIs(t, q, None);
  }

  lemma LinkedDirectory(t: Mem, q: nat)
    requires MemOk(t) && q in t.slots && t.slots[q].payload.content.Dir? && T.Linked(TreeOf(t), q)
    ensures NlinkOf(t, q) >= 2
  {
    hide Exact, T.WellFormed, T.Namings, Subdirectories, TreeOf;
    NodeIs(t, q, None);
  }

  lemma RenameSlots(t: Mem, p: nat, n: Name, q: nat, m: Name)
    requires MemOk(t) && Moves(t, p, n, q, m) && q in t.slots && T.Linked(TreeOf(t), q)
    requires EntryOf(t, p, n).value.id != q
    ensures RenamedSlots(t, BeforeRemoval(t, p, n, q, m), p, q, EntryOf(t, p, n).value, Gone(t, q, m))
  {
    hide MemOwing, Entered, Disowned, RenamedSlots, EntryOf, WithoutEntry, RenameEntry, TreeOf, T.Linked;
    RenameFacts(t, p, n, q, m);
    RenameIs(t, p, n, q, m);
    NamedNode(t, p, n);
    LinkedDirectory(t, q);
    var target := EntryOf(t, p, n).value;
    var t2 := Entered(WithoutEntry(t, p, n), p, q, m, target);
    EnteredSlots(t, p, n, q, m, target);
    if EntryOf(t, q, m).Ok? {
      NamedNode(t, q, m);
      StillCounted(t, t2, p, q, target);
      DisownedSlots(t, t2, p, q, target, EntryOf(t, q, m).value);
    }
  }

  lemma StillCounted(t: Mem, t2: Mem, p: nat, q: nat, target: DirEntry)
    requires RenamedSlots(t, t2, p, q, target, None) && q in t.slots && NlinkOf(t, q) >= 2
    ensures NlinkOf(t2, q) >= 1
  {}

  /** Every entry after the writes is the moved one or an old one, and kinds do not change. */
  lemma RenamedEntriesOk(t: Mem, p: nat, n: Name, q: nat, m: Name)
    requires MemOk(t) && Moves(t, p, n, q, m) && q in t.slots
    requires RenamedSlots(t, BeforeRemoval(t, p, n, q, m), p, q, EntryOf(t, p, n).value, Gone(t, q, m))
    ensures EntriesOk(BeforeRemoval(t, p, n, q, m))
  {
    hide Exact, T.WellFormed, T.Namings, Subdirectories, TreeOf, NodeOk, RenameEntry, Disowned, Entered;
    RenameIs(t, p, n, q, m);
    var target := EntryOf(t, p, n).value;
    var t3 := BeforeRemoval(t, p, n, q, m);
    EntryFacts(t, p, n);
    EntriesAfter(t, p, n, q, m);
    forall x, y | EntryOf(t3, x, y).Ok?
      ensures var e := EntryOf(t3, x, y).value; e.id in t3.slots && e.kind == t3.slots[e.id].payload.kind
    {
      assert EntryOf(t3, x, y) == Ok(target) || EntryOf(t3, x, y) == EntryOf(t, x, y);
    }
  }

  lemma EntriesAfter(t: Mem, p: nat, n: Name, q: nat, m: Name)
    requires EntryOf(t, p, n).Ok?
    ensures var t3 := BeforeRemoval(t, p, n, q, m);
            forall x, y | EntryOf(t3, x, y).Ok? ::
              EntryOf(t3, x, y) == EntryOf(t, p, n) || EntryOf(t3, x, y) == EntryOf(t, x, y)
  {
    hide Disowned, Entered, WithoutEntry, WithEntry;
    var target := EntryOf(t, p, n).value;
    var t1 := WithoutEntry(t, p, n);
    var t2 := Entered(t1, p, q, m, target);
    assert forall x, y | EntryOf(t1, x, y).Ok? :: EntryOf(t1, x, y) == EntryOf(t, x, y) by { TakenEntry(t, p, n); }
    EnteredEntries(t1, p, q, m, target);
    if EntryOf(t, q, m).Ok? { CountsKeepEntries(t2, q, EntryOf(t, q, m).value); }
  }

  lemma TakenEntry(t: Mem, p: nat, n: Name)
    ensures forall x, y | EntryOf(WithoutEntry(t, p, n), x, y).Ok? ::
              EntryOf(WithoutEntry(t, p, n), x, y) == EntryOf(t, x, y)
  {}

  lemma EnteredEntries(t: Mem, p: nat, q: nat, m: Name, target: DirEntry)
    ensures var t2 := Entered(t, p, q, m, target);
            forall x, y | EntryOf(t2, x, y).Ok? ::
              EntryOf(t2, x, y) == Ok(target) || EntryOf(t2, x, y) == EntryOf(t, x, y)
  {
    hide WithEntry, Reparent, WithNlink;
    var ta := WithEntry(t, q, m, target);
    var tb := Reparent(ta, target.id, q);
    var tc := OneLess(tb, p);
    assert forall x, y | EntryOf(ta, x, y).Ok? ::
             EntryOf(ta, x, y) == Ok(target) || EntryOf(ta, x, y) == EntryOf(t, x, y) by {
      GivenEntry(t, q, m, target);
    }
    CountEntries(ta, target.id, q, 0);
    CountEntries(tb, p, q, SaturatingSub(NlinkOf(tb, p), 1));
    CountEntries(tc, q, q, NlinkOf(tc, q) + 1);
  }

  lemma GivenEntry(t: Mem, q: nat, m: Name, target: DirEntry)
    ensures var ta := WithEntry(t, q, m, target);
            forall x, y | EntryOf(ta, x, y).Ok? ::
              EntryOf(ta, x, y) == Ok(target) || EntryOf(ta, x, y) == EntryOf(t, x, y)
  {}

  lemma CountEntries(t: Mem, id: nat, q: nat, nlink: nat)
    ensures forall x, y ::
              EntryOf(WithNlink(t, id, nlink), x, y) == EntryOf(t, x, y) == EntryOf(Reparent(t, id, q), x, y)
  {}

  /** After the writes, all counts are exact but for the replaced entry's link. */
  lemma RenameOwes(t: Mem, p: nat, n: Name, q: nat, m: Name)
    requires MemOk(t) && Moves(t, p, n, q, m) && q in t.slots && T.Linked(TreeOf(t), q)
             && !IntoItself(TreeOf(t), p, n, q)
    ensures EntryOf(t, p, n).Ok?
    ensures MemOwing(BeforeRemoval(t, p, n, q, m),
                     if EntryOf(t, q, m).Ok? then Some(EntryOf(t, q, m).value.id) else None)
  {
    hide MemOwing, Exact, T.WellFormed, TreeOf, RenameEntry, BeforeRemoval, T.Move, T.Namings, Subdirectories, NodeOk,
      EntriesOk, EntryOf, T.Beneath, Moves, RenamedSlots, T.Linked;
    RenameFacts(t, p, n, q, m);
    RenameIs(t, p, n, q, m);
    var tree, target := TreeOf(t), EntryOf(t, p, n).value;
    var t3 := BeforeRemoval(t, p, n, q, m);
    MemBasics(t, None);
    TreeChildren(t);
    T.BeneathSelf(tree, target.id);
    T.MoveKeepsTreeExactly(tree, p, n, q, m, target.id);
    RenamedTree(t, p, n, q, m);
    RenameSlots(t, p, n, q, m);
    RenamedEntriesOk(t, p, n, q, m);
    assert t3.slots.Keys == t.slots.Keys by { KeptKeys(t, t3, p, q, target, Gone(t, q, m)); }
    forall x | x in t3.slots
      ensures NodeOk(TreeOf(t3), x, t3.slots[x],
                     if EntryOf(t, q, m).Ok? && EntryOf(t, q, m).value.id == x then 1 else 0)
    {
      RenamedNode(t, p, n, q, m, x);
    }
    MemOwingIs(t3, if EntryOf(t, q, m).Ok? then Some(EntryOf(t, q, m).value.id) else None);
  }

  lemma KeptKeys(t: Mem, t': Mem, p: nat, q: nat, target: DirEntry, gone: Option<DirEntry>)
    requires RenamedSlots(t, t', p, q, target, gone)
    ensures t'.slots.Keys == t.slots.Keys
  {}

  lemma RenamedNode(t: Mem, p: nat, n: Name, q: nat, m: Name, x: nat)
    requires MemOk(t) && Moves(t, p, n, q, m) && q in t.slots && T.Linked(TreeOf(t), q)
             && EntryOf(t, p, n).value.id != q
    requires x in t.slots && BeforeRemoval(t, p, n, q, m).slots.Keys == t.slots.Keys
    requires TreeOf(BeforeRemoval(t, p, n, q, m)) == T.Move(TreeOf(t), p, n, q, m, EntryOf(t, p, n).value.id)
    requires RenamedSlots(t, BeforeRemoval(t, p, n, q, m), p, q, EntryOf(t, p, n).value, Gone(t, q, m))
    ensures NodeOk(TreeOf(BeforeRemoval(t, p, n, q, m)), x, BeforeRemoval(t, p, n, q, m).slots[x],
                   if EntryOf(t, q, m).Ok? && EntryOf(t, q, m).value.id == x then 1 else 0)
  {
    hide MemOwing, Exact, T.WellFormed, TreeOf, RenameEntry, BeforeRemoval, T.Move, T.Namings, Subdirectories,
      EntriesOk, EntryOf, Moves, T.Replaceable, RenamedSlots;
    RenameIs(t, p, n, q, m);
    var tree, target := TreeOf(t), EntryOf(t, p, n).value;
    var t3 := BeforeRemoval(t, p, n, q, m);
    MemBasics(t, None);
    TreeChildren(t);
    RenameFacts(t, p, n, q, m);
    EntryFacts(t, p, n);
    MovedCounts(tree, p, n, q, m, target.id);
    SlotRenamed(t, t3, p, q, target, Gone(t, q, m), x);
    assert NodeOk(tree, x, t.slots[x], 0);
    if EntryOf(t, q, m).Ok? && EntryOf(t, q, m).value.id == x {
      if T.IsDir(tree, x) { NamedDirectoryOnce(tree, q, m); }
      GoneNode(tree, TreeOf(t3), x, t.slots[x], t3.slots[x], q, m);
    } else if x == target.id {
      if T.IsDir(tree, x) { NamedDirectoryOnce(tree, p, n); }
      NamingsAre(tree, x);
      assert (p, n) in T.Namings(tree, x);
      TargetNode(tree, TreeOf(t3), x, t.slots[x], t3.slots[x], p, n, q, m);
    } else {
      NodeStays(tree, TreeOf(t3), x, t.slots[x], t3.slots[x], 0);
    }
  }

  /** The replaced node has one name less, but not one link less yet; a directory has none left, and is empty. */
  lemma GoneNode(t: Tree, t': Tree, x: nat, s: Slot<Node>, s': Slot<Node>, q: nat, m: Name)
    requires NodeOk(t, x, s, 0) && x != ROOT && s'.links == s.links && s'.payload.kind == s.payload.kind
    requires s'.payload.content == s.payload.content && NamesOf(t', x) == NamesOf(t, x) - 1
    requires T.Namings(t', x) == T.Namings(t, x) - {(q, m)}
    requires if s.payload.content.Dir? then
               T.Namings(t, x) == {(q, m)} && s'.payload.nlink == 0 && s.payload.content.entries == map[]
             else s'.payload.nlink == s.payload.nlink - 1
    ensures NodeOk(t', x, s', 1)
  {
    hide T.Namings, Subdirectories;
  }

  /** The node moved has as many names as before; a directory's one name and its parent move together. */
  lemma TargetNode(t: Tree, t': Tree, x: nat, s: Slot<Node>, s': Slot<Node>, p: nat, n: Name, q: nat, m: Name)
    requires NodeOk(t, x, s, 0) && x != ROOT && s'.links == s.links && s'.payload == s.payload
    requires NamesOf(t', x) == NamesOf(t, x) && T.Namings(t', x) == (T.Namings(t, x) - {(p, n)}) + {(q, m)}
    requires (p, n) in T.Namings(t, x) && SubdirsOf(t', x) == SubdirsOf(t, x)
    requires s.payload.content.Dir? ==> T.Namings(t, x) == {(p, n)} && s'.parent == if p != q then q else s.parent
    ensures NodeOk(t', x, s', 0)
  {
    hide T.Namings, Subdirectories;
  }

  // ---------- rename, on every input ----------

  /** A rename into a directory that is not there, not linked, or beneath what is moved breaks the tree. */
  lemma BadRenameBreaks(t: Mem, p: nat, n: Name, q: nat, m: Name)
    requires MemOk(t) && Moves(t, p, n, q, m)
    requires q !in t.slots || !T.Linked(TreeOf(t), q) || IntoItself(TreeOf(t), p, n, q)
    ensures !MemOk(RenameEntry(t, p, n, q, m).0)
  {
    hide MemOwing, Exact, T.WellFormed, TreeOf, RenameEntry, T.Namings, Subdirectories, EntriesOk, EntryOf, Moves,
      T.Linked, BeforeRemoval, T.Move, T.Beneath;
    var tree, t' := TreeOf(t), RenameEntry(t, p, n, q, m).0;
    MemBasics(t, None);
    TreeChildren(t);
    RenameIs(t, p, n, q, m);
    EntryFacts(t, p, n);
    if q !in t.slots {
      LostName(t, p, n, q, m);
    } else {
      RenameFacts(t, p, n, q, m);
      RenamedHierarchy(t, p, n, q, m);
      if IntoItself(tree, p, n, q) {
        T.MoveKeepsTreeExactly(tree, p, n, q, m, EntryOf(t, p, n).value.id);
        if MemOk(t') { MemBasics(t', None); }
      } else {
        HoldsUnlinked(t, p, n, q, m);
      }
    }
  }

  lemma LostName(t: Mem, p: nat, n: Name, q: nat, m: Name)
    requires MemOk(t) && Moves(t, p, n, q, m) && q !in t.slots
    ensures !MemOk(RenameEntry(t, p, n, q, m).0)
  {
    hide MemOwing, Exact, T.WellFormed, TreeOf, T.Namings, Subdirectories, EntriesOk, T.Linked;
    MemBasics(t, None);
    EntryFacts(t, p, n);
    var tree, t', id := TreeOf(t), RenameEntry(t, p, n, q, m).0, EntryOf(t, p, n).value.id;
    assert NodeOk(tree, id, t.slots[id], 0);
    NamedIsLinked(t, p, n, id);
    LostNameTree(t, p, n, q, m);
    UnboundCounts(tree, p, n, id);
    assert !NodeOk(TreeOf(t'), id, t'.slots[id], 0);
    if MemOk(t') { MemBasics(t', None); }
  }

  lemma LostNameTree(t: Mem, p: nat, n: Name, q: nat, m: Name)
    requires MemOk(t) && Moves(t, p, n, q, m) && q !in t.slots
    ensures EntryOf(t, p, n).Ok?
    ensures var t', id := RenameEntry(t, p, n, q, m).0, EntryOf(t, p, n).value.id;
            TreeOf(t') == T.Unbind(TreeOf(t), p, n) && t'.slots.Keys == t.slots.Keys
            && (id in t.slots ==> t'.slots[id].links == t.slots[id].links)
  {
    hide MemOwing, Exact, TreeOf;
    RenameIs(t, p, n, q, m);
    var target := EntryOf(t, p, n).value;
    assert Exact(t) by { MemBasics(t, None); }
    RenamedTree(t, p, n, q, m);
    WritesKeepLinks(t, p, n, q, m);
    assert !T.IsDir(T.Unbind(TreeOf(t), p, n), q) by { TreeChildren(t); }
  }

  lemma HoldsUnlinked(t: Mem, p: nat, n: Name, q: nat, m: Name)
    requires MemOk(t) && Moves(t, p, n, q, m) && q in t.slots && !T.Linked(TreeOf(t), q)
    ensures !MemOk(RenameEntry(t, p, n, q, m).0)
  {
    hide MemOwing, Exact, T.WellFormed, TreeOf, RenameEntry, T.Namings, Subdirectories, EntriesOk, EntryOf, Moves,
      T.Move;
    RenameIs(t, p, n, q, m);
    var tree, t', id := TreeOf(t), RenameEntry(t, p, n, q, m).0, EntryOf(t, p, n).value.id;
    MemBasics(t, None);
    TreeChildren(t);
    TreeChildren(t');
    RenameFacts(t, p, n, q, m);
    EntryFacts(t, p, n);
    MovedCounts(tree, p, n, q, m, id);
    RenamedHierarchy(t, p, n, q, m);
    T.MoveChild(tree, p, n, q, m, id);
    assert NodeOk(tree, q, t.slots[q], 0);
    if MemOk(t') {
      assert EntryOf(t', q, m).Ok?;
      EntryFacts(t', q, m);
      SameChildrenSameNames(T.Move(tree, p, n, q, m, id), TreeOf(t'), q);
    }
  }

  lemma SameChildrenSameNames(t: Tree, t': Tree, o: nat)
    requires forall x: nat, y: Name :: T.Child(t', x, y) == T.Child(t, x, y)
    ensures T.Namings(t', o) == T.Namings(t, o)
  {
    hide T.Namings;
    NamingsAre(t, o);
    NamingsAre(t', o);
    assert forall e: (nat, Name) :: e in T.Namings(t', o) <==> e in T.Namings(t, o);
  }

  /**
   * Renaming is POSIX rename() wherever that succeeds, and it keeps the tree and its counts if and only if POSIX
   * allows it. A refused rename changes nothing, for the reason POSIX gives; but a missing or removed new parent, and
   * a move beneath oneself, are not refused.
   */
  lemma RenameRefines(t: Mem, p: nat, n: Name, q: nat, m: Name)
    requires MemOk(t)
    ensures var (tree, posix) := (TreeOf(t), T.Rename(TreeOf(t), p, n, q, m));
            var (t', r) := RenameEntry(t, p, n, q, m);
            match r
            case Ok(_) => (MemOk(t') <==> posix.Ok?)
                          && (posix.Ok? ==> TreeOf(t') == Restrict(posix.value, t'.slots.Keys))
            case Err(e) => t' == t && posix == Err(if IntoItself(tree, p, n, q) then EINVAL else e)
  {
    hide MemOwing, T.Rename, RenameEntry, T.Linked, IntoItself, Restrict;
    if Moves(t, p, n, q, m) {
      MovesRefines(t, p, n, q, m);
    } else {
      RefusedOrNothing(t, p, n, q, m);
    }
  }

  lemma MovesRefines(t: Mem, p: nat, n: Name, q: nat, m: Name)
    requires MemOk(t) && Moves(t, p, n, q, m)
    ensures var tree, t', posix := TreeOf(t), RenameEntry(t, p, n, q, m).0, T.Rename(TreeOf(t), p, n, q, m);
            && (MemOk(t') <==> posix.Ok?)
            && (posix.Ok? ==> TreeOf(t') == Restrict(posix.value, t'.slots.Keys))
            && (posix.Ok? <==> q in t.slots && T.Linked(tree, q) && !IntoItself(tree, p, n, q))
  {
    hide MemOwing, Exact, T.WellFormed, TreeOf, RenameEntry, T.Namings, Subdirectories, EntriesOk, EntryOf, T.Linked,
      BeforeRemoval, T.Move, T.Beneath, RemoveLink, Moves, Restrict;
    RenameIs(t, p, n, q, m);
    var tree, posix, gone := TreeOf(t), T.Rename(TreeOf(t), p, n, q, m), EntryOf(t, q, m);
    MemBasics(t, None);
    TreeChildren(t);
    EntryFacts(t, p, n);
    if q in t.slots {
      RenameFacts(t, p, n, q, m);
      RenamedHierarchy(t, p, n, q, m);
      EmptyDirectories(t);
      assert posix == if IntoItself(tree, p, n, q) then Err(EINVAL) else if !T.Linked(tree, q) then Err(ENOENT)
                      else Ok(T.Move(tree, p, n, q, m, EntryOf(t, p, n).value.id));
      if T.Linked(tree, q) && !IntoItself(tree, p, n, q) {
        RenameOwes(t, p, n, q, m);
        if gone.Ok? {
          assert gone.value.id in BeforeRemoval(t, p, n, q, m).slots by { WritesKeepLinks(t, p, n, q, m); }
          SettlingKeeps(BeforeRemoval(t, p, n, q, m), gone.value.id);
        }
      } else {
        BadRenameBreaks(t, p, n, q, m);
      }
    } else {
      assert posix == Err(ENOENT);
      BadRenameBreaks(t, p, n, q, m);
    }
  }

  lemma EmptyDirectories(t: Mem)
    ensures forall id | id in t.slots && t.slots[id].payload.content.Dir? ::
              T.IsDir(TreeOf(t), id)
              && (TreeOf(t)[id].children == map[] <==> t.slots[id].payload.content.entries == map[])
  {
    forall id | id in t.slots && t.slots[id].payload.content.Dir?
      ensures T.IsDir(TreeOf(t), id)
              && (TreeOf(t)[id].children == map[] <==> t.slots[id].payload.content.entries == map[])
    {
      EmptyObject(t, id);
    }
  }

  lemma RefusedOrNothing(t: Mem, p: nat, n: Name, q: nat, m: Name)
    requires MemOk(t) && !Moves(t, p, n, q, m)
    ensures var tree, t', r := TreeOf(t), RenameEntry(t, p, n, q, m).0, RenameEntry(t, p, n, q, m).1;
            var posix := T.Rename(tree, p, n, q, m);
            match r
            case Ok(_) => t' == t && posix == Ok(tree) && T.Linked(tree, q) && tree == Restrict(tree, t.slots.Keys)
            case Err(e) => t' == t && posix == Err(if IntoItself(tree, p, n, q) then EINVAL else e)
  {
    hide MemOwing, Exact, T.WellFormed, TreeOf, T.Namings, Subdirectories, EntriesOk, T.Linked, T.Beneath;
    var tree := TreeOf(t);
    MemBasics(t, None);
    TreeChildren(t);
    EmptyDirectories(t);
    RenameIsAllOrNothing(t, p, n, q, m);
    if EntryOf(t, p, n).Ok? { EntryFacts(t, p, n); }
    if EntryOf(t, q, m).Ok? { EntryFacts(t, q, m); }
  }

  /** There are no flags to stop it: a destination that exists is replaced, unless the rename is declined anyway. */
  lemma ReplacesUnlessDeclined(t: Mem, p: nat, n: Name, q: nat, m: Name)
    requires MemOk(t) && EntryOf(t, q, m).Ok?
    ensures EntryOf(RenameEntry(t, p, n, q, m).0, q, m) == EntryOf(t, q, m) <==> RenameDeclined(t, p, n, q, m)
  {
    hide MemOwing, TreeOf, RenameEntry, T.Move, Restrict, T.WellFormed;
    DeclinedChangesNothing(t, p, n, q, m);
    if Moves(t, p, n, q, m) {
      var t' := RenameEntry(t, p, n, q, m).0;
      RenameIs(t, p, n, q, m);
      RenameFacts(t, p, n, q, m);
      RenamedHierarchy(t, p, n, q, m);
      TreeChildren(t);
      TreeChildren(t');
      T.MoveChild(TreeOf(t), p, n, q, m, EntryOf(t, p, n).value.id);
    }
  }
}
