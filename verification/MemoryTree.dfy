/**
 * fuse3/examples/memory_fs.rs: the operations keep the nodes a tree with exact counts, and are the operations of
 * POSIX.
 */
module MemoryTree {
  import opened Base
  import opened Nodes
  import T = PosixTree
  import opened MemoryFs

  type Tree = T.Tree

  function Bit(b: bool): nat
  {
    if b then 1 else 0
  }

  function NamesOf(t: Tree, o: nat): nat
  {
    |T.Namings(t, o)|
  }

  function SubdirsOf(t: Tree, p: nat): nat
  {
    |Subdirectories(t, p)|
  }

  predicate ChildIs(t: Tree, p: nat, n: Name, o: nat)
  {
    T.Child(t, p, n) == Some(o)
  }

  predicate ChildIsDir(t: Tree, p: nat, n: Name)
  {
    T.Child(t, p, n).Some? && T.IsDir(t, T.Child(t, p, n).value)
  }

  // ---------- counting names and subdirectories ----------

  /** Two hierarchies with the same directories that differ in one name at most. */
  ghost predicate OneNameApart(t: Tree, t': Tree, p: nat, n: Name)
  {
    && T.IsDir(t, p)
    && (forall x :: T.IsDir(t', x) == T.IsDir(t, x))
    && (forall x: nat, y: Name :: (x == p && y == n) || T.Child(t', x, y) == T.Child(t, x, y))
  }

  lemma NamingsAre(t: Tree, o: nat)
    ensures forall e: (nat, Name) :: e in T.Namings(t, o) <==> ChildIs(t, e.0, e.1, o)
  {}

  lemma SubdirectoriesAre(t: Tree, p: nat)
    ensures forall n: Name :: n in Subdirectories(t, p) <==> ChildIsDir(t, p, n)
  {}

  lemma NamesChange(t: Tree, t': Tree, p: nat, n: Name, o: nat)
    requires OneNameApart(t, t', p, n)
    ensures NamesOf(t', o) + Bit(ChildIs(t, p, n, o)) == NamesOf(t, o) + Bit(ChildIs(t', p, n, o))
    ensures T.Namings(t', o) == if ChildIs(t', p, n, o) then T.Namings(t, o) + {(p, n)} else T.Namings(t, o) - {(p, n)}
  {
    hide T.Namings;
    NamingsAre(t, o);
    NamingsAre(t', o);
    var rest := T.Namings(t, o) - {(p, n)};
    assert T.Namings(t, o) == if ChildIs(t, p, n, o) then rest + {(p, n)} else rest;
    assert T.Namings(t', o) == if ChildIs(t', p, n, o) then rest + {(p, n)} else rest;
  }

  lemma SubdirsChange(t: Tree, t': Tree, p: nat, n: Name, x: nat)
    requires OneNameApart(t, t', p, n)
    ensures SubdirsOf(t', x) + Bit(x == p && ChildIsDir(t, p, n)) ==
            SubdirsOf(t, x) + Bit(x == p && ChildIsDir(t', p, n))
  {
    hide Subdirectories;
    SubdirectoriesAre(t, x);
    SubdirectoriesAre(t', x);
    if x == p {
      var rest := Subdirectories(t, x) - {n};
      assert Subdirectories(t, x) == if ChildIsDir(t, p, n) then rest + {n} else rest;
      assert Subdirectories(t', x) == if ChildIsDir(t', p, n) then rest + {n} else rest;
    } else {
      assert Subdirectories(t, x) == Subdirectories(t', x);
    }
  }

  /** Hierarchies with the same names and the same directories at the ends of them count alike. */
  lemma SameNamesCountAlike(t: Tree, t': Tree, o: nat)
    requires forall p: nat, n: Name ::
               T.Child(t', p, n) == T.Child(t, p, n) && ChildIsDir(t', p, n) == ChildIsDir(t, p, n)
    ensures T.Namings(t', o) == T.Namings(t, o) && Subdirectories(t', o) == Subdirectories(t, o)
  {
    hide T.Namings, Subdirectories;
    NamingsAre(t, o);
    NamingsAre(t', o);
    SubdirectoriesAre(t, o);
    SubdirectoriesAre(t', o);
    assert forall e: (nat, Name) :: e in T.Namings(t', o) <==> e in T.Namings(t, o);
    assert forall n: Name :: n in Subdirectories(t', o) <==> n in Subdirectories(t, o);
  }

  lemma NoNames(t: Tree, o: nat)
    ensures NamesOf(t, o) == 0 <==> T.Namings(t, o) == {}
    ensures NamesOf(t, o) == 0 <==> forall p: nat, n: Name :: !ChildIs(t, p, n, o)
  {
    NamingsAre(t, o);
    if forall p: nat, n: Name :: !ChildIs(t, p, n, o) {
      assert T.Namings(t, o) == {};
    }
    if NamesOf(t, o) == 0 {
      forall p: nat, n: Name ensures !ChildIs(t, p, n, o) { assert (p, n) !in T.Namings(t, o); }
    }
  }

  // ---------- the hierarchy of the nodes ----------

  lemma TreeChildren(t: Mem)
    ensures forall p: nat, n: Name ::
              T.Child(TreeOf(t), p, n) == (match EntryOf(t, p, n) case Ok(e) => Some(e.id) case Err(_) => None)
    ensures forall p :: T.IsDir(TreeOf(t), p) <==> p in t.slots && t.slots[p].payload.content.Dir?
  {}

  lemma ChildrenChange(entries: map<Name, DirEntry>, n: Name, e: DirEntry)
    ensures Children(entries[n := e]) == Children(entries)[n := e.id]
    ensures Children(entries - {n}) == Children(entries) - {n}
  {}

  lemma WritesOnTree(t: Mem, p: nat, n: Name, e: DirEntry)
    ensures TreeOf(WithEntry(t, p, n, e)) == T.Bind(TreeOf(t), p, n, e.id)
    ensures TreeOf(WithoutEntry(t, p, n)) == T.Unbind(TreeOf(t), p, n)
  {
    hide Children;
    if p in t.slots && t.slots[p].payload.content.Dir? {
      ChildrenChange(t.slots[p].payload.content.entries, n, e);
    }
  }

  lemma CountsOffTree(t: Mem, p: nat, nlink: nat, q: nat)
    ensures TreeOf(WithNlink(t, p, nlink)) == TreeOf(t)
    ensures TreeOf(Reparent(t, p, q)) == TreeOf(t)
    ensures TreeOf(AddLink(t, p)) == TreeOf(t)
  {}

  /** What is left of a hierarchy when only some of its objects are kept. */
  function Restrict(t: Tree, kept: set<nat>): Tree
  {
    map o | o in t && o in kept :: t[o]
  }

  /** Everything a node owes is read off the names and the subdirectories. */
  lemma NodeOkReads(t: Tree, t': Tree, id: nat, slot: Slot<Node>, owed: nat)
    requires T.Namings(t', id) == T.Namings(t, id) && Subdirectories(t', id) == Subdirectories(t, id)
    ensures NodeOk(t, id, slot, owed) == NodeOk(t', id, slot, owed)
  {
    hide T.Namings, Subdirectories;
  }

  /**
   * Giving up the link that is owed settles the account; a node reclaimed thereby is named by nothing and holds
   * nothing.
   */
  lemma SettlingKeeps(t: Mem, id: nat)
    requires MemOwing(t, Some(id)) && id in t.slots
    ensures MemOk(RemoveLink(t, id))
    ensures TreeOf(RemoveLink(t, id)) == Restrict(TreeOf(t), RemoveLink(t, id).slots.Keys)
    ensures RemoveLink(t, id).slots.Keys <= t.slots.Keys <= RemoveLink(t, id).slots.Keys + {id}
    ensures id !in RemoveLink(t, id).slots ==> NamesOf(TreeOf(t), id) == 0
  {
    hide MemOwing, Exact, TreeOf, RemoveLink, NodeOk;
    MemBasics(t, Some(id));
    assert t.slots[id].links > 0 by { OwedIsCounted(TreeOf(t), id, t.slots[id]); }
    LinkTaken(t, id);
    CountsMove(t, RemoveLink(t, id), id, Some(id));
  }

  lemma OwedIsCounted(t: Tree, id: nat, slot: Slot<Node>)
    requires NodeOk(t, id, slot, 1)
    ensures slot.links > 0
  {}

  lemma NodeIs(t: Mem, id: nat, debtor: Option<nat>)
    requires MemOwing(t, debtor) && id in t.slots
    ensures NodeOk(TreeOf(t), id, t.slots[id], if debtor == Some(id) then 1 else 0)
  {
    hide Exact, T.WellFormed, EntriesOk, NodeOk;
    assert NodeAt(t, id, debtor);
  }

  /** A slot's counts change, and with them its links only by what is owed; or it goes, with no other link left. */
  lemma CountsMove(t: Mem, t': Mem, id: nat, debtor: Option<nat>)
    requires MemOwing(t, debtor) && Exact(t') && id in t.slots && (debtor == None || debtor == Some(id))
    requires t'.slots == t.slots - {id} || (id in t'.slots && t'.slots == t.slots[id := t'.slots[id]])
    requires id in t'.slots ==>
               && t'.slots[id].payload == t.slots[id].payload && t'.slots[id].parent == t.slots[id].parent
               && t'.slots[id].links == t.slots[id].links - Bit(debtor.Some?)
    requires id !in t'.slots ==> t.slots[id].links == Bit(debtor.Some?)
    ensures MemOk(t') && TreeOf(t') == Restrict(TreeOf(t), t'.slots.Keys)
    ensures id !in t'.slots ==> NamesOf(TreeOf(t), id) == 0
  {
    hide Exact, T.WellFormed, T.Namings, Subdirectories, TreeOf;
    var tree, tree' := TreeOf(t), TreeOf(t');
    NodeIs(t, id, debtor);
    NoNames(tree, id);
    TreeBasics(t);
    DroppedTree(t, t', id);
    forall i | i in t'.slots ensures NodeOk(tree', i, t'.slots[i], 0) {
      NodeIs(t, i, debtor);
      SameNamesCountAlike(tree, tree', i);
      NodeOkReads(tree, tree', i, t'.slots[i], 0);
    }
    TreeChildren(t);
    forall p, n | EntryOf(t', p, n).Ok?
      ensures var e := EntryOf(t', p, n).value; e.id in t'.slots && e.kind == t'.slots[e.id].payload.kind
    {
      assert EntryOf(t', p, n) == EntryOf(t, p, n);
      assert ChildIs(tree, p, n, EntryOf(t, p, n).value.id);
    }
  }

  lemma TreeBasics(t: Mem)
    requires T.WellFormed(TreeOf(t))
    ensures ROOT in t.slots && t.slots[ROOT].payload.content.Dir?
    ensures forall p: nat, n: Name | T.Child(TreeOf(t), p, n).Some? :: T.Child(TreeOf(t), p, n).value in t.slots
  {
    TreeChildren(t);
  }

  /** A slot that goes is named by nothing and holds nothing; one that stays keeps its payload. */
  lemma DroppedTree(t: Mem, t': Mem, id: nat)
    requires id in t.slots && ROOT in t.slots && t.slots[ROOT].payload.content.Dir?
    requires forall p: nat, n: Name | T.Child(TreeOf(t), p, n).Some? :: T.Child(TreeOf(t), p, n).value in t.slots
    requires t'.slots == t.slots - {id} || (id in t'.slots && t'.slots == t.slots[id := t'.slots[id]])
    requires id in t'.slots ==> t'.slots[id].payload == t.slots[id].payload
    requires id !in t'.slots ==>
               && id != ROOT && (forall p: nat, n: Name :: !ChildIs(TreeOf(t), p, n, id))
               && (t.slots[id].payload.content.Dir? ==> t.slots[id].payload.content.entries == map[])
    ensures var tree, tree' := TreeOf(t), TreeOf(t');
            && tree' == Restrict(tree, t'.slots.Keys) && (T.WellFormed(tree') <==> T.WellFormed(tree))
            && forall p: nat, n: Name ::
                 T.Child(tree', p, n) == T.Child(tree, p, n) && ChildIsDir(tree', p, n) == ChildIsDir(tree, p, n)
  {
    hide T.WellFormed;
    var tree, tree' := TreeOf(t), TreeOf(t');
    forall p: nat, n: Name
      ensures T.Child(tree', p, n) == T.Child(tree, p, n) && ChildIsDir(tree', p, n) == ChildIsDir(tree, p, n)
      ensures T.Child(tree, p, n).Some? ==> T.Child(tree, p, n).value in tree'
    {
      assert !ChildIs(tree, p, n, id) || id in t'.slots;
    }
    if T.WellFormed(tree) { SameNamesWellFormed(tree, tree'); }
    if T.WellFormed(tree') { SameNamesWellFormed(tree', tree); }
  }

  /** Being a tree is read off the names, the directories at the ends of them, and the top. */
  lemma SameNamesWellFormed(t: Tree, t': Tree)
    requires T.WellFormed(t) && T.IsDir(t', T.TOP)
    requires forall p: nat, n: Name ::
               && T.Child(t', p, n) == T.Child(t, p, n) && ChildIsDir(t', p, n) == ChildIsDir(t, p, n)
               && (T.Child(t, p, n).Some? ==> T.Child(t, p, n).value in t')
    ensures T.WellFormed(t')
  {
    var rank :| T.Ranked(t, rank);
    var rank' := map x | x in t' :: if x in rank then rank[x] else 0;
    forall p: nat, n: Name | T.Child(t', p, n).Some? && T.IsDir(t', T.Child(t', p, n).value)
      ensures rank'[p] < rank'[T.Child(t', p, n).value]
    {
      assert ChildIsDir(t', p, n) && ChildIsDir(t, p, n);
      assert T.Child(t, p, n).Some?;
    }
    assert T.Ranked(t', rank');
    forall p, n, q, m | T.Child(t', p, n).Some? && T.Child(t', p, n) == T.Child(t', q, m)
      && T.IsDir(t', T.Child(t', p, n).value)
      ensures p == q && n == m
    {
      assert ChildIsDir(t', p, n) && ChildIsDir(t, p, n);
    }
  }

  // ---------- create, unlink, rmdir, link ----------

  /** A new directory is empty, and only directories have entries. */
  predicate Fits(kind: FileKind, content: Content)
  {
    if kind == DirectoryKind then content == Dir(map[]) else !content.Dir?
  }

  lemma WriteKeepsExact(t: Mem, id: nat, node: Node)
    requires Exact(t)
    ensures Exact(Write(t, id, node))
  {
    if id in t.slots {
      LiveIsUsed(t, id);
      StoreIsExact(t, id, t.slots[id].(payload := node));
    }
  }

  lemma EditsKeepExact(t: Mem, p: nat, n: Name, e: DirEntry, nlink: nat)
    requires Exact(t)
    ensures Exact(WithEntry(t, p, n, e)) && Exact(WithoutEntry(t, p, n)) && Exact(WithNlink(t, p, nlink))
  {
    hide Exact, Write;
    if p in t.slots {
      WriteKeepsExact(t, p, t.slots[p].payload.(nlink := nlink));
      if t.slots[p].payload.content.Dir? {
        WriteKeepsExact(t, p, t.slots[p].payload.(content := Dir(t.slots[p].payload.content.entries[n := e])));
        WriteKeepsExact(t, p, t.slots[p].payload.(content := Dir(t.slots[p].payload.content.entries - {n})));
      }
    }
  }

  lemma CreatedSlots(t: Mem, p: nat, n: Name, kind: FileKind, content: Content)
    requires Exact(t) && ROOT in t.slots && CreateChild(t, p, n, kind, content).1.Ok?
    ensures var (t', r) := CreateChild(t, p, n, kind, content);
            var id, node := r.value, t.slots[p].payload;
            && Exact(t') && id !in t.slots && id != ROOT && p in t.slots && node.content.Dir?
            && t'.slots.Keys == t.slots.Keys + {id}
            && t'.slots[id].payload == NewNode(kind, content) && t'.slots[id].links == 1 && t'.slots[id].parent == p
            && (forall x | x in t.slots && x != p :: t'.slots[x] == t.slots[x])
            && t'.slots[p] == t.slots[p].(payload := Node(node.kind,
                 Dir(node.content.entries[n := DirEntry(id, kind)]), node.nlink + Bit(kind == DirectoryKind)))
  {
    hide Exact, Insert;
    var (id, t1) := Insert(t, NewNode(kind, content), p);
    InsertAddsOne(t, NewNode(kind, content), p);
    var t2 := WithEntry(t1, p, n, DirEntry(id, kind));
    EditsKeepExact(t1, p, n, DirEntry(id, kind), 0);
    EditsKeepExact(t2, p, n, DirEntry(id, kind), NlinkOf(t2, p) + 1);
  }

  /**
   * Creating a child is POSIX creation, error for error, if and only if the parent is linked; a removed directory,
   * where POSIX has ENOENT, gets the child nevertheless.
   */
  lemma CreatedTree(t: Mem, p: nat, n: Name, kind: FileKind, content: Content, o: nat)
    requires Exact(t) && Fits(kind, content)
    ensures var (t', r) := CreateChild(t, p, n, kind, content);
            match r
            case Ok(id) =>
              && TreeOf(t') == T.Made(TreeOf(t), p, n, id, kind == DirectoryKind)
              && T.Create(TreeOf(t), p, n, id, kind == DirectoryKind) ==
                   if T.Linked(TreeOf(t), p) then Ok(TreeOf(t')) else Err(ENOENT)
            case Err(e) => t' == t && T.Create(TreeOf(t), p, n, o, kind == DirectoryKind) == Err(e)
  {
    hide Exact, Insert;
    TreeChildren(t);
    if CreateChild(t, p, n, kind, content).1.Ok? {
      var (id, t1) := Insert(t, NewNode(kind, content), p);
      var e := DirEntry(id, kind);
      InsertAddsOne(t, NewNode(kind, content), p);
      assert ObjectOf(NewNode(kind, content)) == if kind == DirectoryKind then T.Directory(map[]) else T.Leaf;
      assert TreeOf(t1) == TreeOf(t)[id := ObjectOf(NewNode(kind, content))];
      WritesOnTree(t1, p, n, e);
      CountsOffTree(WithEntry(t1, p, n, e), p, NlinkOf(WithEntry(t1, p, n, e), p) + 1, p);
    }
  }

  lemma MemBasics(t: Mem, debtor: Option<nat>)
    requires MemOwing(t, debtor)
    ensures Exact(t) && T.WellFormed(TreeOf(t)) && EntriesOk(t) && TreeOf(t).Keys == t.slots.Keys
    ensures ROOT in t.slots && t.slots[ROOT].payload.content.Dir?
    ensures forall id | id in t.slots :: NodeOk(TreeOf(t), id, t.slots[id], if debtor == Some(id) then 1 else 0)
  {
    hide Exact, T.WellFormed, EntriesOk, NodeOk;
    TreeBasics(t);
    forall id | id in t.slots ensures NodeOk(TreeOf(t), id, t.slots[id], if debtor == Some(id) then 1 else 0) {
      assert NodeAt(t, id, debtor);
    }
  }

  /**
   * A node stays in order when its subdirectories and its link count move together, its names and its slot's links
   * stay, and it keeps its kind and parent; it must be linked if it holds anything.
   */
  lemma NodeStays(t: Tree, t': Tree, id: nat, slot: Slot<Node>, slot': Slot<Node>, owed: nat)
    requires NodeOk(t, id, slot, owed) && T.Namings(t', id) == T.Namings(t, id)
    requires slot'.links == slot.links && slot'.parent == slot.parent && slot'.payload.kind == slot.payload.kind
    requires slot'.payload.content.Dir? == slot.payload.content.Dir?
    requires slot.payload.content.Dir? ==>
               && slot'.payload.nlink + SubdirsOf(t, id) == slot.payload.nlink + SubdirsOf(t', id)
               && (slot'.payload.content.entries == slot.payload.content.entries || T.Linked(t, id))
               && (!T.Linked(t, id) ==> slot'.payload.nlink == slot.payload.nlink)
    requires !slot.payload.content.Dir? ==> slot'.payload.nlink == slot.payload.nlink
    ensures NodeOk(t', id, slot', owed)
  {
    hide T.Namings, Subdirectories;
  }

  /** Creating a child keeps the tree and its counts if and only if the parent is linked. */
  lemma CreateKeepsExactly(t: Mem, p: nat, n: Name, kind: FileKind, content: Content)
    requires MemOk(t) && Fits(kind, content) && CreateChild(t, p, n, kind, content).1.Ok?
    ensures MemOk(CreateChild(t, p, n, kind, content).0) <==> T.Linked(TreeOf(t), p)
  {
    hide MemOwing, Exact, T.WellFormed, CreateChild, TreeOf, T.Namings, Subdirectories;
    var (t', r) := CreateChild(t, p, n, kind, content);
    var id := r.value;
    var tree, tree' := TreeOf(t), TreeOf(t');
    MemBasics(t, None);
    CreatedSlots(t, p, n, kind, content);
    CreatedTree(t, p, n, kind, content, 0);
    FreeName(t, p, n, kind, content);
    CreatedCounts(tree, tree', p, n, id, kind == DirectoryKind);
    T.CreateKeepsTree(tree, p, n, id, kind == DirectoryKind);
    CreatedEntries(t, p, n, kind, content);
    assert NodeOk(tree', id, t'.slots[id], 0) by {
      assert NamesOf(tree', id) == 1 && SubdirsOf(tree', id) == 0 && T.Linked(tree', id);
      assert forall q: nat, m: Name | (q, m) in T.Namings(tree', id) :: t'.slots[id].parent == q;
    }
    forall x | x in t.slots && (x != p || T.Linked(tree, p)) ensures NodeOk(tree', x, t'.slots[x], 0) {
      NodeStays(tree, tree', x, t.slots[x], t'.slots[x], 0);
    }
    assert n in t'.slots[p].payload.content.entries;
    assert !T.Linked(tree, p) ==> !NodeOk(tree', p, t'.slots[p], 0);
    MemOkIs(t');
  }

  lemma FreeName(t: Mem, p: nat, n: Name, kind: FileKind, content: Content)
    requires CreateChild(t, p, n, kind, content).1.Ok?
    ensures T.IsDir(TreeOf(t), p) && T.Child(TreeOf(t), p, n) == None
  {
    TreeChildren(t);
  }

  lemma MemOkIs(t: Mem)
    ensures MemOk(t) <==> Exact(t) && T.WellFormed(TreeOf(t)) && EntriesOk(t)
                          && forall id | id in t.slots :: NodeOk(TreeOf(t), id, t.slots[id], 0)
  {
    hide Exact, T.WellFormed, EntriesOk, NodeOk;
    if MemOk(t) {
      forall id | id in t.slots ensures NodeOk(TreeOf(t), id, t.slots[id], 0) { NodeIs(t, id, None); }
    }
  }

  lemma CreatedCounts(t: Tree, t': Tree, p: nat, n: Name, o: nat, directory: bool)
    requires T.WellFormed(t) && o !in t && T.IsDir(t, p) && T.Child(t, p, n) == None
    requires t' == T.Made(t, p, n, o, directory)
    ensures T.Namings(t', o) == {(p, n)} && SubdirsOf(t', o) == 0
    ensures forall x | x != o :: T.Namings(t', x) == T.Namings(t, x)
    ensures forall x | x != o :: SubdirsOf(t', x) == SubdirsOf(t, x) + Bit(x == p && directory)
  {
    hide T.Namings, Subdirectories;
    T.CreateKeepsTree(t, p, n, o, directory);
    NamingsAre(t, o);
    NamingsAre(t', o);
    assert forall e: (nat, Name) :: e in T.Namings(t', o) <==> e == (p, n);
    SubdirectoriesAre(t', o);
    assert Subdirectories(t', o) == {};
    forall x | x != o
      ensures T.Namings(t', x) == T.Namings(t, x) && SubdirsOf(t', x) == SubdirsOf(t, x) + Bit(x == p && directory)
    {
      NamingsAre(t, x);
      NamingsAre(t', x);
      assert forall e: (nat, Name) :: e in T.Namings(t', x) <==> e in T.Namings(t, x);
      SubdirectoriesAre(t, x);
      SubdirectoriesAre(t', x);
      if x == p && directory {
        assert Subdirectories(t', x) == Subdirectories(t, x) + {n};
        assert n !in Subdirectories(t, x);
      } else {
        assert Subdirectories(t', x) == Subdirectories(t, x);
      }
    }
  }

  lemma CreatedEntries(t: Mem, p: nat, n: Name, kind: FileKind, content: Content)
    requires Exact(t) && EntriesOk(t) && ROOT in t.slots && Fits(kind, content)
             && CreateChild(t, p, n, kind, content).1.Ok?
    ensures EntriesOk(CreateChild(t, p, n, kind, content).0)
  {
    hide Exact, CreateChild;
    var (t', r) := CreateChild(t, p, n, kind, content);
    CreatedSlots(t, p, n, kind, content);
    forall q, m | EntryOf(t', q, m).Ok?
      ensures var e := EntryOf(t', q, m).value; e.id in t'.slots && e.kind == t'.slots[e.id].payload.kind
    {
      if q != p || m != n { assert EntryOf(t', q, m) == EntryOf(t, q, m); }
    }
  }

  /** Taking a name away: what names and subdirectories are left. */
  lemma UnboundCounts(t: Tree, p: nat, n: Name, o: nat)
    requires ChildIs(t, p, n, o)
    ensures var t' := T.Unbind(t, p, n);
            && OneNameApart(t, t', p, n)
            && NamesOf(t', o) == NamesOf(t, o) - 1
            && (forall x | x != o :: T.Namings(t', x) == T.Namings(t, x))
            && T.Namings(t', o) <= T.Namings(t, o)
            && forall x :: SubdirsOf(t', x) + Bit(x == p && T.IsDir(t, o)) == SubdirsOf(t, x)
  {
    hide T.Namings, Subdirectories;
    var t' := T.Unbind(t, p, n);
    T.UnbindChild(t, p, n);
    NamesChange(t, t', p, n, o);
    forall x ensures x != o ==> T.Namings(t', x) == T.Namings(t, x) {
      NamesChange(t, t', p, n, x);
      NamingsAre(t, x);
    }
    forall x ensures SubdirsOf(t', x) + Bit(x == p && T.IsDir(t, o)) == SubdirsOf(t, x) {
      SubdirsChange(t, t', p, n, x);
    }
  }

  /** Whatever holds an entry is linked, and whatever an entry names is live and of the cached kind. */
  lemma EntryFacts(t: Mem, p: nat, n: Name)
    requires MemOk(t) && EntryOf(t, p, n).Ok?
    ensures var e, tree := EntryOf(t, p, n).value, TreeOf(t);
            && p in t.slots && t.slots[p].payload.content.Dir? && T.Linked(tree, p)
            && ChildIs(tree, p, n, e.id) && e.id in t.slots && e.kind == t.slots[e.id].payload.kind
            && (e.kind == DirectoryKind <==> T.IsDir(tree, e.id)) && e.id != ROOT && T.Linked(tree, e.id)
  {
    hide Exact, T.Namings, Subdirectories;
    TreeChildren(t);
    NodeIs(t, p, None);
    NamingsAre(TreeOf(t), EntryOf(t, p, n).value.id);
    assert (p, n) in T.Namings(TreeOf(t), EntryOf(t, p, n).value.id);
    NodeIs(t, EntryOf(t, p, n).value.id, None);
  }

  /** Entries that are left keep their kinds while slots keep theirs. */
  lemma FewerEntries(t: Mem, t': Mem)
    requires EntriesOk(t)
    requires forall p, n | EntryOf(t', p, n).Ok? :: EntryOf(t', p, n) == EntryOf(t, p, n)
    requires forall id | id in t.slots :: id in t'.slots && t'.slots[id].payload.kind == t.slots[id].payload.kind
    ensures EntriesOk(t')
  {}

  // ---------- unlink and rmdir ----------

  lemma UnlinkSlots(t: Mem, p: nat, n: Name, id: nat)
    requires Exact(t) && EntriesOk(t) && p in t.slots && t.slots[p].payload.content.Dir? && id in t.slots && p != id
    ensures var t1, node := OneLess(WithoutEntry(t, p, n), id), t.slots[p].payload;
            && Exact(t1) && EntriesOk(t1) && t1.slots.Keys == t.slots.Keys
            && TreeOf(t1) == T.Unbind(TreeOf(t), p, n)
            && t1.slots[p] == t.slots[p].(payload := node.(content := Dir(node.content.entries - {n})))
            && t1.slots[id] == t.slots[id].(payload :=
                 t.slots[id].payload.(nlink := SaturatingSub(t.slots[id].payload.nlink, 1)))
            && forall x | x in t.slots && x != p && x != id :: t1.slots[x] == t.slots[x]
  {
    hide Exact, TreeOf;
    var e := DirEntry(id, RegularFile);
    var ta := WithoutEntry(t, p, n);
    WritesOnTree(t, p, n, e);
    CountsOffTree(ta, id, SaturatingSub(NlinkOf(ta, id), 1), p);
    EditsKeepExact(t, p, n, e, 0);
    EditsKeepExact(ta, id, n, e, SaturatingSub(NlinkOf(ta, id), 1));
    FewerEntries(t, OneLess(ta, id));
  }

  lemma UnlinkOwes(t: Mem, p: nat, n: Name)
    requires MemOk(t) && UnlinkEntry(t, p, n).1.Ok?
    ensures var id := EntryOf(t, p, n).value.id;
            var t1 := OneLess(WithoutEntry(t, p, n), id);
            id in t1.slots && MemOwing(t1, Some(id)) && T.Unlink(TreeOf(t), p, n) == Ok(TreeOf(t1))
  {
    hide Exact, MemOwing, EntriesOk, T.Namings, Subdirectories, TreeOf, T.WellFormed, OneLess, WithoutEntry;
    var id := EntryOf(t, p, n).value.id;
    var t1 := OneLess(WithoutEntry(t, p, n), id);
    var tree, tree1 := TreeOf(t), TreeOf(t1);
    MemBasics(t, None);
    EntryFacts(t, p, n);
    UnlinkSlots(t, p, n, id);
    UnboundCounts(tree, p, n, id);
    T.UnbindKeepsTree(tree, p, n);
    forall x | x in t1.slots ensures NodeOk(tree1, x, t1.slots[x], if x == id then 1 else 0) {
      assert NodeOk(tree, x, t.slots[x], 0);
      if x != id { NodeStays(tree, tree1, x, t.slots[x], t1.slots[x], 0); }
    }
    MemOwingIs(t1, Some(id));
  }

  lemma MemOwingIs(t: Mem, debtor: Option<nat>)
    requires Exact(t) && T.WellFormed(TreeOf(t)) && EntriesOk(t)
    requires forall id | id in t.slots :: NodeOk(TreeOf(t), id, t.slots[id], if debtor == Some(id) then 1 else 0)
    ensures MemOwing(t, debtor)
  {}

  /**
   * Unlinking keeps the tree and its counts, and is POSIX unlinking of it, error for error but for a directory, which
   * is EISDIR here and EPERM there; a node nothing uses any more is gone.
   */
  lemma UnlinkRefines(t: Mem, p: nat, n: Name)
    requires MemOk(t)
    ensures var (t', r) := UnlinkEntry(t, p, n);
            match r
            case Ok(_) => MemOk(t') && T.Unlink(TreeOf(t), p, n).Ok?
                          && TreeOf(t') == Restrict(T.Unlink(TreeOf(t), p, n).value, t'.slots.Keys)
            case Err(e) => t' == t && (e == EISDIR <==> ChildIsDir(TreeOf(t), p, n))
                           && T.Unlink(TreeOf(t), p, n) == Err(if e == EISDIR then EPERM else e)
  {
    hide MemOwing, T.WellFormed, TreeOf;
    TreeChildren(t);
    if EntryOf(t, p, n).Ok? { EntryFacts(t, p, n); }
    assert forall x :: x in TreeOf(t) <==> x in t.slots by { MemBasics(t, None); }
    if UnlinkEntry(t, p, n).1.Ok? {
      var id := EntryOf(t, p, n).value.id;
      UnlinkOwes(t, p, n);
      SettlingKeeps(OneLess(WithoutEntry(t, p, n), id), id);
    }
  }

  lemma RmdirSlots(t: Mem, p: nat, n: Name, id: nat)
    requires Exact(t) && EntriesOk(t) && p in t.slots && t.slots[p].payload.content.Dir? && id in t.slots && p != id
    ensures var t1, node := WithNlink(OneLess(WithoutEntry(t, p, n), p), id, 0), t.slots[p].payload;
            && Exact(t1) && EntriesOk(t1) && t1.slots.Keys == t.slots.Keys
            && TreeOf(t1) == T.Unbind(TreeOf(t), p, n)
            && t1.slots[p] == t.slots[p].(payload :=
                 Node(node.kind, Dir(node.content.entries - {n}), SaturatingSub(node.nlink, 1)))
            && t1.slots[id] == t.slots[id].(payload := t.slots[id].payload.(nlink := 0))
            && forall x | x in t.slots && x != p && x != id :: t1.slots[x] == t.slots[x]
  {
    hide Exact, TreeOf;
    var e := DirEntry(id, DirectoryKind);
    var ta := WithoutEntry(t, p, n);
    var tb := OneLess(ta, p);
    WritesOnTree(t, p, n, e);
    CountsOffTree(ta, p, SaturatingSub(NlinkOf(ta, p), 1), p);
    CountsOffTree(tb, id, 0, p);
    EditsKeepExact(t, p, n, e, 0);
    EditsKeepExact(ta, p, n, e, SaturatingSub(NlinkOf(ta, p), 1));
    EditsKeepExact(tb, id, n, e, 0);
    FewerEntries(t, WithNlink(tb, id, 0));
  }

  lemma RmdirOwes(t: Mem, p: nat, n: Name)
    requires MemOk(t) && RmdirEntry(t, p, n).1.Ok?
    ensures var id := EntryOf(t, p, n).value.id;
            var t1 := WithNlink(OneLess(WithoutEntry(t, p, n), p), id, 0);
            id in t1.slots && MemOwing(t1, Some(id)) && T.Rmdir(TreeOf(t), p, n) == Ok(TreeOf(t1))
  {
    hide Exact, MemOwing, EntriesOk, T.Namings, Subdirectories, TreeOf, T.WellFormed, WithNlink, OneLess, WithoutEntry;
    var id := EntryOf(t, p, n).value.id;
    var t1 := WithNlink(OneLess(WithoutEntry(t, p, n), p), id, 0);
    var tree, tree1 := TreeOf(t), TreeOf(t1);
    MemBasics(t, None);
    EntryFacts(t, p, n);
    EmptyObject(t, id);
    assert p != id;
    RmdirSlots(t, p, n, id);
    UnboundCounts(tree, p, n, id);
    NamedDirectoryOnce(tree, p, n);
    T.UnbindKeepsTree(tree, p, n);
    forall x | x in t1.slots ensures NodeOk(tree1, x, t1.slots[x], if x == id then 1 else 0) {
      assert NodeOk(tree, x, t.slots[x], 0);
      if x != id { NodeStays(tree, tree1, x, t.slots[x], t1.slots[x], 0); }
    }
    MemOwingIs(t1, Some(id));
  }

  lemma EmptyObject(t: Mem, id: nat)
    requires id in t.slots && t.slots[id].payload.content.Dir?
    ensures T.IsDir(TreeOf(t), id)
    ensures TreeOf(t)[id].children == map[] <==> t.slots[id].payload.content.entries == map[]
  {
    var entries := t.slots[id].payload.content.entries;
    assert Children(entries).Keys == entries.Keys;
    assert entries != map[] ==> exists n :: n in entries;
  }

  lemma NamedDirectoryOnce(t: Tree, p: nat, n: Name)
    requires T.WellFormed(t) && ChildIsDir(t, p, n)
    ensures T.Namings(t, T.Child(t, p, n).value) == {(p, n)}
  {
    hide T.Namings;
    NamingsAre(t, T.Child(t, p, n).value);
    assert forall e: (nat, Name) :: e in T.Namings(t, T.Child(t, p, n).value) <==> e == (p, n);
  }

  /** Removing a directory keeps the tree and its counts, and is POSIX rmdir() of it. */
  lemma RmdirRefines(t: Mem, p: nat, n: Name)
    requires MemOk(t)
    ensures var (t', r) := RmdirEntry(t, p, n);
            match r
            case Ok(_) => MemOk(t') && T.Rmdir(TreeOf(t), p, n).Ok?
                          && TreeOf(t') == Restrict(T.Rmdir(TreeOf(t), p, n).value, t'.slots.Keys)
            case Err(e) => t' == t && T.Rmdir(TreeOf(t), p, n) == Err(e)
  {
    hide MemOwing, T.WellFormed, TreeOf;
    TreeChildren(t);
    if EntryOf(t, p, n).Ok? {
      EntryFacts(t, p, n);
      var id := EntryOf(t, p, n).value.id;
      if t.slots[id].payload.content.Dir? { EmptyObject(t, id); }
    }
    assert forall x :: x in TreeOf(t) <==> x in t.slots by { MemBasics(t, None); }
    if RmdirEntry(t, p, n).1.Ok? {
      var id := EntryOf(t, p, n).value.id;
      RmdirOwes(t, p, n);
      SettlingKeeps(WithNlink(OneLess(WithoutEntry(t, p, n), p), id, 0), id);
    }
  }

  // ---------- link ----------

  /** Giving a free name: what names and subdirectories there are then. */
  lemma BoundCounts(t: Tree, p: nat, n: Name, o: nat)
    requires T.IsDir(t, p) && T.Child(t, p, n) == None
    ensures var t' := T.Bind(t, p, n, o);
            && OneNameApart(t, t', p, n)
            && NamesOf(t', o) == NamesOf(t, o) + 1
            && T.Namings(t', o) == T.Namings(t, o) + {(p, n)}
            && (forall x | x != o :: T.Namings(t', x) == T.Namings(t, x))
            && forall x :: SubdirsOf(t', x) == SubdirsOf(t, x) + Bit(x == p && T.IsDir(t, o))
  {
    hide T.Namings, Subdirectories;
    var t' := T.Bind(t, p, n, o);
    T.BindChild(t, p, n, o);
    NamesChange(t, t', p, n, o);
    forall x ensures x != o ==> T.Namings(t', x) == T.Namings(t, x) {
      NamesChange(t, t', p, n, x);
      NamingsAre(t, x);
    }
    forall x ensures SubdirsOf(t', x) == SubdirsOf(t, x) + Bit(x == p && T.IsDir(t, o)) {
      SubdirsChange(t, t', p, n, x);
    }
  }

  lemma LinkSlots(t: Mem, id: nat, p: nat, n: Name, e: DirEntry)
    requires Exact(t) && EntriesOk(t) && p in t.slots && t.slots[p].payload.content.Dir?
    requires id in t.slots && p != id && e == DirEntry(id, t.slots[id].payload.kind)
    ensures var t', node := OneMore(AddLink(WithEntry(t, p, n, e), id), id), t.slots[p].payload;
            && Exact(t') && EntriesOk(t') && t'.slots.Keys == t.slots.Keys
            && TreeOf(t') == T.Bind(TreeOf(t), p, n, id)
            && t'.slots[p] == t.slots[p].(payload := node.(content := Dir(node.content.entries[n := e])))
            && t'.slots[id] == t.slots[id].(links := t.slots[id].links + 1,
                                            payload := t.slots[id].payload.(nlink := t.slots[id].payload.nlink + 1))
            && forall x | x in t.slots && x != p && x != id :: t'.slots[x] == t.slots[x]
  {
    hide Exact, TreeOf;
    var ta := WithEntry(t, p, n, e);
    var tb := AddLink(ta, id);
    var t' := OneMore(tb, id);
    WritesOnTree(t, p, n, e);
    CountsOffTree(ta, id, 0, p);
    CountsOffTree(tb, id, NlinkOf(tb, id) + 1, p);
    EditsKeepExact(t, p, n, e, 0);
    StoreIsExact(ta, id, tb.slots[id]);
    EditsKeepExact(tb, id, n, e, NlinkOf(tb, id) + 1);
    forall q, m | EntryOf(t', q, m).Ok?
      ensures var f := EntryOf(t', q, m).value; f.id in t'.slots && f.kind == t'.slots[f.id].payload.kind
    {
      if q != p || m != n { assert EntryOf(t', q, m) == EntryOf(t, q, m); }
    }
  }

  /**
   * Linking is POSIX link(), error for error, and keeps the tree and its counts, if and only if the new parent is
   * linked; a removed directory, where POSIX has ENOENT, gets the entry nevertheless.
   */
  lemma LinkRefines(t: Mem, id: nat, p: nat, n: Name)
    requires MemOk(t)
    ensures var (t', r) := LinkEntry(t, id, p, n);
            match r
            case Ok(_) =>
              && T.Link(TreeOf(t), id, p, n) == (if T.Linked(TreeOf(t), p) then Ok(TreeOf(t')) else Err(ENOENT))
              && (MemOk(t') <==> T.Linked(TreeOf(t), p))
            case Err(e) => t' == t && T.Link(TreeOf(t), id, p, n) == Err(e)
  {
    hide MemOwing, Exact, T.WellFormed, TreeOf, T.Namings, Subdirectories;
    var (t', r) := LinkEntry(t, id, p, n);
    MemBasics(t, None);
    TreeChildren(t);
    var tree, tree' := TreeOf(t), TreeOf(t');
    if id in t.slots { assert NodeOk(tree, id, t.slots[id], 0); }
    if r.Ok? {
      LinkSlots(t, id, p, n, DirEntry(id, t.slots[id].payload.kind));
      BoundCounts(tree, p, n, id);
      T.LinkKeepsTree(tree, id, p, n);
      LinkCounts(t, t', id, p, n);
    }
  }

  lemma LinkCounts(t: Mem, t': Mem, id: nat, p: nat, n: Name)
    requires MemOk(t) && LinkEntry(t, id, p, n) == (t', Ok(())) && p in t.slots && p != id && id in t.slots
    requires Exact(t') && EntriesOk(t') && T.WellFormed(TreeOf(t')) && t'.slots.Keys == t.slots.Keys
    requires t.slots[p].payload.content.Dir? && !t.slots[id].payload.content.Dir?
    requires var node := t.slots[p].payload;
             && t'.slots[p] == t.slots[p].(payload :=
                  node.(content := Dir(node.content.entries[n := DirEntry(id, t.slots[id].payload.kind)])))
             && t'.slots[id] == t.slots[id].(links := t.slots[id].links + 1,
                                             payload := t.slots[id].payload.(nlink := t.slots[id].payload.nlink + 1))
             && forall x | x in t.slots && x != p && x != id :: t'.slots[x] == t.slots[x]
    requires NamesOf(TreeOf(t'), id) == NamesOf(TreeOf(t), id) + 1
    requires forall x | x != id :: T.Namings(TreeOf(t'), x) == T.Namings(TreeOf(t), x)
    requires forall x :: SubdirsOf(TreeOf(t'), x) == SubdirsOf(TreeOf(t), x)
    requires id != ROOT
    ensures MemOk(t') <==> T.Linked(TreeOf(t), p)
  {
    hide MemOwing, Exact, EntriesOk, T.WellFormed, TreeOf, T.Namings, Subdirectories, LinkEntry;
    var tree, tree' := TreeOf(t), TreeOf(t');
    MemBasics(t, None);
    forall x | x in t.slots && (x != p || T.Linked(tree, p)) ensures NodeOk(tree', x, t'.slots[x], 0) {
      assert NodeOk(tree, x, t.slots[x], 0);
      if x != id { NodeStays(tree, tree', x, t.slots[x], t'.slots[x], 0); }
    }
    assert n in t'.slots[p].payload.content.entries;
    assert !T.Linked(tree, p) ==> !NodeOk(tree', p, t'.slots[p], 0);
    MemOkIs(t');
  }
}
