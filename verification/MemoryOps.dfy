/**
 * fuse3/examples/memory_fs.rs, performed in place on the runtime's table.
 *
 * Every access to a node takes a lease, reads or writes under the node's lock, and drops the lease. The methods end
 * in the values of `MemoryFs`, whose lemmas are in `MemoryTree`, `MemoryRename` and `MemoryRuns`.
 */
module MemoryOps {
  import opened Base
  import opened Nodes
  import opened MemoryFs
  import opened MemoryTree

  /** Every slot has room for `k` more leases: what the lease counter's overflow panic asks of the caller. */
  ghost predicate LeaseRoom(t: Mem, k: nat)
  {
    forall id | id in t.slots :: t.slots[id].leases + k <= U32_MAX
  }

  /** Leasing a node, writing it and dropping the lease is writing it. */
  lemma LeasedWrite(t: Mem, id: nat, node: Node)
    requires Exact(t) && id in t.slots
    ensures var leased := Lease(t, id);
            && Exact(Write(leased, id, node)) && leased.RefOf(id) == t.RefOf(id)
            && Unlease(Write(leased, id, node), t.RefOf(id)) == Write(t, id, node)
  {
    ApplyIsExact(t, OpGet(id));
    WriteKeepsExact(Lease(t, id), id, node);
    LiveIsUsed(t, id);
  }

  /** Leasing a node and dropping the lease is nothing at all. */
  lemma LeasedRead(t: Mem, id: nat)
    requires Exact(t) && id in t.slots
    ensures Unlease(Lease(t, id), t.RefOf(id)) == t
  {
    LiveIsUsed(t, id);
    assert Write(t, id, t.slots[id].payload) == t;
    LeasedWrite(t, id, t.slots[id].payload);
  }

  function Emptied(node: Node, n: Name): Node
  {
    if node.content.Dir? then node.(content := Dir(node.content.entries - {n})) else node
  }

  function Filled(node: Node, n: Name, e: DirEntry): Node
  {
    if node.content.Dir? then node.(content := Dir(node.content.entries[n := e])) else node
  }

  function Relinked(node: Node, nlink: nat): Node
  {
    node.(nlink := nlink)
  }

  lemma UpdatesAre(t: Mem, id: nat, n: Name, e: DirEntry, nlink: nat)
    requires id in t.slots
    ensures Write(t, id, Emptied(t.slots[id].payload, n)) == WithoutEntry(t, id, n)
    ensures Write(t, id, Filled(t.slots[id].payload, n, e)) == WithEntry(t, id, n, e)
    ensures Write(t, id, Relinked(t.slots[id].payload, nlink)) == WithNlink(t, id, nlink)
  {
    assert t.slots[id := t.slots[id]] == t.slots;
  }

  /** A directory with one more entry, and one more link if that is a directory. */
  function Adopted(node: Node, n: Name, e: DirEntry): Node
  {
    var filled := Filled(node, n, e);
    if e.kind == DirectoryKind then Relinked(filled, filled.nlink + 1) else filled
  }

  lemma AdoptedIs(t: Mem, p: nat, n: Name, e: DirEntry)
    ensures LinkedInto(t, p, n, e) == if p in t.slots then Write(t, p, Adopted(t.slots[p].payload, n, e)) else t
  {
    if p in t.slots { UpdatesAre(t, p, n, e, 0); }
  }

  /** What `rmdir` writes into the parent. */
  function Bereft(node: Node, n: Name): Node
  {
    var emptied := Emptied(node, n);
    Relinked(emptied, SaturatingSub(emptied.nlink, 1))
  }

  lemma BereftIs(t: Mem, p: nat, n: Name)
    ensures OneLess(WithoutEntry(t, p, n), p) == if p in t.slots then Write(t, p, Bereft(t.slots[p].payload, n)) else t
  {
    if p in t.slots { UpdatesAre(t, p, n, DirEntry(p, DirectoryKind), 0); }
  }

  lemma BereftExact(t: Mem, p: nat, n: Name)
    requires Exact(t)
    ensures Exact(OneLess(WithoutEntry(t, p, n), p))
  {
    hide Exact, WithoutEntry, WithNlink;
    var e := DirEntry(p, DirectoryKind);
    EditsKeepExact(t, p, n, e, 0);
    EditsKeepExact(WithoutEntry(t, p, n), p, n, e, SaturatingSub(NlinkOf(WithoutEntry(t, p, n), p), 1));
  }

  lemma LinksAfter(t: Mem, p: nat, n: Name, e: DirEntry, id: nat)
    requires id in t.slots
    ensures var t' := LinkedInto(t, p, n, e); id in t'.slots && t'.slots[id].links == t.slots[id].links
  {}

  /** A lease held across a write makes no difference to it. */
  lemma WriteUnderLease(t: Mem, held: nat, id: nat, node: Node)
    requires held in t.slots
    ensures held in Write(t, id, node).slots
    ensures Write(Lease(t, held), id, node) == Lease(Write(t, id, node), held)
    ensures Write(t, id, node).RefOf(held) == t.RefOf(held)
    ensures id in t.slots ==> Lease(t, held).slots[id].payload == t.slots[id].payload
  {}

  /** Removing the last link of a node that is held, and then letting go of it, is removing the link. */
  lemma RemovalUnderLease(t: Mem, held: nat)
    requires Exact(t) && held in t.slots
    ensures Unlease(RemoveLink(Lease(t, held), held), t.RefOf(held)) == RemoveLink(t, held)
  {}

  lemma NoRecount(t: Mem, id: nat, nlink: nat)
    requires id !in t.slots
    ensures WithNlink(t, id, nlink) == t
  {}

  lemma NoEntry(t: Mem, p: nat, n: Name, e: DirEntry)
    requires p !in t.slots
    ensures WithEntry(t, p, n, e) == t
  {}

  lemma Reparented(t: Mem, id: nat, q: nat)
    requires LeaseRoom(t, 1)
    ensures LeaseRoom(Reparent(t, id, q), 1)
  {}

  class MemoryFileSystem {
    const nodes: NodeTable<Node>

    ghost predicate Valid()
      reads this, nodes
    {
      nodes.Valid()
    }

    ghost function Value(): Mem
      reads this, nodes
    {
      nodes.Value()
    }

    constructor ()
      ensures Valid() && fresh(nodes) && Value() == EMPTY
    {
      nodes := new NodeTable(NewNode(DirectoryKind, Dir(map[])));
    }

    /** `cx.get`, a read, and the drop of the lease. */
    method Read(id: nat) returns (r: Option<Node>)
      requires Valid() && LeaseRoom(Value(), 1)
      modifies nodes
      ensures Valid() && Value() == old(Value())
      ensures r == if id in old(Value()).slots then Some(old(Value()).slots[id].payload) else None
    {
      hide Exact;
      var lease := nodes.Get(id);
      if lease.None? { return None; }
      r := Some(nodes.slots[id].payload);
      nodes.DropRef(lease.value);
      LeasedRead(old(Value()), id);
    }

    /** `cx.get`, a write under the node's lock, and the drop of the lease. */
    method Update(id: nat, f: Node -> Node)
      requires Valid() && LeaseRoom(Value(), 1)
      modifies nodes
      ensures Valid() && LeaseRoom(Value(), 1)
      ensures Value() == if id in old(Value()).slots then Write(old(Value()), id, f(old(Value()).slots[id].payload))
                         else old(Value())
    {
      hide Exact;
      var lease := nodes.Get(id);
      if lease.Some? {
        ghost var before := old(Value());
        LeasedWrite(before, id, f(before.slots[id].payload));
        nodes.slots := nodes.slots[id := nodes.slots[id].(payload := f(nodes.slots[id].payload))];
        nodes.DropRef(lease.value);
      }
    }

    method Entry(p: nat, n: Name) returns (r: Result<DirEntry>)
      requires Valid() && LeaseRoom(Value(), 1)
      modifies nodes
      ensures Valid() && Value() == old(Value()) && r == EntryOf(Value(), p, n)
    {
      var node := Read(p);
      match node
      case None => r := Err(ENOENT);
      case Some(dir) =>
        match dir.content
        case Dir(entries) => r := if n in entries then Ok(entries[n]) else Err(ENOENT);
        case _ => r := Err(ENOTDIR);
    }

    method Kind(id: nat) returns (r: Result<FileKind>)
      requires Valid() && LeaseRoom(Value(), 1)
      modifies nodes
      ensures Valid() && Value() == old(Value()) && r == KindOf(Value(), id)
    {
      var node := Read(id);
      r := if node.Some? then Ok(node.value.kind) else Err(ENOENT);
    }

    /** `check_new_entry`. */
    method NewEntryRefused(p: nat, n: Name) returns (e: Option<Errno>)
      requires Valid() && LeaseRoom(Value(), 1)
      modifies nodes
      ensures Valid() && Value() == old(Value()) && e == CheckNewEntry(Value(), p, n)
    {
      var node := Read(p);
      match node
      case None => e := Some(ENOENT);
      case Some(dir) =>
        if !dir.content.Dir? {
          e := Some(ENOTDIR);
        } else if n in dir.content.entries {
          e := Some(EEXIST);
        } else {
          e := None;
        }
    }

    /** `link_into`. */
    method LinkInto(p: nat, n: Name, e: DirEntry)
      requires Valid() && LeaseRoom(Value(), 1)
      modifies nodes
      ensures Valid() && LeaseRoom(Value(), 1) && Value() == LinkedInto(old(Value()), p, n, e)
    {
      hide Exact, Write, LinkedInto;
      ghost var t := Value();
      Update(p, node => Adopted(node, n, e));
      AdoptedIs(t, p, n, e);
    }

    method CreateChild(p: nat, n: Name, kind: FileKind, content: Content) returns (r: Result<nat>)
      requires Valid() && LeaseRoom(Value(), 1) && (nodes.free == [] ==> nodes.nextIno < U64_MAX)
      modifies nodes
      ensures Valid() && LeaseRoom(Value(), 1)
              && (Value(), r) == MemoryFs.CreateChild(old(Value()), p, n, kind, content)
    {
      hide Exact;
      var refused := NewEntryRefused(p, n);
      if refused.Some? { return Err(refused.value); }
      var id := nodes.InsertNode(NewNode(kind, content), p);
      LinkInto(p, n, DirEntry(id, kind));
      r := Ok(id);
    }

    method Unlink(p: nat, n: Name) returns (r: Result<()>)
      requires Valid() && LeaseRoom(Value(), 1)
      modifies nodes
      ensures Valid() && LeaseRoom(Value(), 1) && (Value(), r) == UnlinkEntry(old(Value()), p, n)
    {
      hide Exact;
      ghost var t := Value();
      var entry := Entry(p, n);
      if entry.Err? { return Err(entry.error); }
      var id := entry.value.id;
      var kind := Kind(id);
      if kind.Err? { return Err(kind.error); }
      if kind.value == DirectoryKind { return Err(EISDIR); }
      Update(p, (node: Node) => Emptied(node, n));
      UpdatesAre(t, p, n, entry.value, 0);
      ghost var t1 := Value();
      Update(id, (node: Node) => Relinked(node, SaturatingSub(node.nlink, 1)));
      if id in t1.slots { UpdatesAre(t1, id, n, entry.value, SaturatingSub(NlinkOf(t1, id), 1)); }
      nodes.Unlink(id);
      r := Ok(());
    }

    /** The child stays leased until the end, so it is reclaimed when the lease is dropped, not when its link is. */
    method Rmdir(p: nat, n: Name) returns (r: Result<()>)
      requires Valid() && LeaseRoom(Value(), 2)
      modifies nodes
      ensures Valid() && (Value(), r) == RmdirEntry(old(Value()), p, n)
    {
      hide Exact, Write, WithoutEntry, WithNlink, RemoveLink, Unlease;
      ghost var t := Value();
      var entry := Entry(p, n);
      if entry.Err? { return Err(entry.error); }
      var id := entry.value.id;
      var child := nodes.Get(id);
      if child.None? { return Err(ENOENT); }
      LeasedRead(t, id);
      var content := nodes.slots[id].payload.content;
      if !content.Dir? {
        nodes.DropRef(child.value);
        return Err(ENOTDIR);
      }
      if content.entries != map[] {
        nodes.DropRef(child.value);
        return Err(ENOTEMPTY);
      }
      Update(p, node => Bereft(node, n));
      BereftIs(t, p, n);
      WriteUnderLease(t, id, p, Bereft(t.slots[p].payload, n));
      ghost var t1 := OneLess(WithoutEntry(t, p, n), p);
      assert Value() == Lease(t1, id) && Exact(t1) by { BereftExact(t, p, n); }
      Update(id, node => Relinked(node, 0));
      WriteUnderLease(t1, id, id, Relinked(t1.slots[id].payload, 0));
      ghost var t2 := WithNlink(t1, id, 0);
      UpdatesAre(t1, id, n, entry.value, 0);
      EditsKeepExact(t1, id, n, entry.value, 0);
      nodes.Unlink(id);
      nodes.DropRef(child.value);
      RemovalUnderLease(t2, id);
      r := Ok(());
    }

    method Link(id: nat, p: nat, n: Name) returns (r: Result<()>)
      requires Valid() && LeaseRoom(Value(), 1)
      requires id in Value().slots ==> Value().slots[id].links < U32_MAX
      modifies nodes
      ensures Valid() && (Value(), r) == LinkEntry(old(Value()), id, p, n)
    {
      hide Exact, Write, WithEntry, WithNlink;
      ghost var t := Value();
      var kind := Kind(id);
      if kind.Err? { return Err(kind.error); }
      if kind.value == DirectoryKind { return Err(EPERM); }
      var refused := NewEntryRefused(p, n);
      if refused.Some? { return Err(refused.value); }
      kind := Kind(id);
      LinkInto(p, n, DirEntry(id, kind.value));
      LinksAfter(t, p, n, DirEntry(id, kind.value), id);
      nodes.Link(id);
      ghost var t2 := Value();
      Update(id, (node: Node) => Relinked(node, node.nlink + 1));
      if id in t2.slots { UpdatesAre(t2, id, n, DirEntry(id, kind.value), NlinkOf(t2, id) + 1); }
      r := Ok(());
    }

    /** One count of one node. */
    method Recount(id: nat, f: nat -> nat)
      requires Valid() && LeaseRoom(Value(), 1)
      modifies nodes
      ensures Valid() && LeaseRoom(Value(), 1)
      ensures Value() == WithNlink(old(Value()), id, f(NlinkOf(old(Value()), id)))
    {
      hide Exact, Write, WithNlink;
      ghost var t := Value();
      Update(id, (node: Node) => Relinked(node, f(node.nlink)));
      if id in t.slots {
        UpdatesAre(t, id, [], DirEntry(id, DirectoryKind), f(NlinkOf(t, id)));
      } else {
        NoRecount(t, id, f(0));
      }
    }

    /** The inspection of the destination in `rename`. */
    method ReplacementRefused(existing: nat, directory: bool) returns (e: Option<Errno>)
      requires Valid() && LeaseRoom(Value(), 1)
      modifies nodes
      ensures Valid() && Value() == old(Value()) && e == ReplaceRefusal(Value(), existing, directory)
    {
      var node := Read(existing);
      if node.None? { return Some(ENOENT); }
      match node.value.content
      case Dir(entries) =>
        if !directory { return Some(EISDIR); }
        if entries != map[] { return Some(ENOTEMPTY); }
        e := None;
      case _ =>
        e := if directory then Some(ENOTDIR) else None;
    }

    /** The target's new entry, and the subdirectory counts of the two parents. */
    method Enter(p: nat, q: nat, m: Name, target: DirEntry)
      requires Valid() && LeaseRoom(Value(), 1)
      modifies nodes
      ensures Valid() && LeaseRoom(Value(), 1) && Value() == Entered(old(Value()), p, q, m, target)
    {
      hide Exact, Write, WithEntry, WithNlink, Reparent;
      ghost var t := Value();
      Update(q, node => Filled(node, m, target));
      if q in t.slots { UpdatesAre(t, q, m, target, 0); } else { NoEntry(t, q, m, target); }
      if target.kind == DirectoryKind && p != q {
        Reparented(Value(), target.id, q);
        nodes.SetParent(target.id, q);
        Recount(p, k => SaturatingSub(k, 1));
        Recount(q, k => k + 1);
      }
    }

    /** The replaced entry leaves the counts, and then the table. */
    method Disown(q: nat, gone: DirEntry)
      requires Valid() && LeaseRoom(Value(), 1)
      modifies nodes
      ensures Valid() && Value() == RemoveLink(Disowned(old(Value()), q, gone), gone.id)
    {
      hide Exact, WithNlink, RemoveLink;
      if gone.kind == DirectoryKind {
        Recount(q, k => SaturatingSub(k, 1));
        Recount(gone.id, _ => 0);
      } else {
        Recount(gone.id, k => SaturatingSub(k, 1));
      }
      nodes.Unlink(gone.id);
    }

    /** The flags of the request are ignored. */
    method Rename(p: nat, n: Name, q: nat, m: Name, flags: nat) returns (r: Result<()>)
      requires Valid() && LeaseRoom(Value(), 1)
      modifies nodes
      ensures Valid() && (Value(), r) == RenameEntry(old(Value()), p, n, q, m)
    {
      hide Exact, Write, WithoutEntry, Entered, Disowned, RemoveLink;
      ghost var t := Value();
      var source := Entry(p, n);
      if source.Err? { return Err(source.error); }
      var target := source.value.id;
      var kind := Kind(target);
      if kind.Err? { return Err(kind.error); }
      var existing := Entry(q, m);
      if existing.Err? && existing.error != ENOENT { return Err(existing.error); }
      if existing.Ok? {
        if existing.value.id == target { return Ok(()); }
        var refused := ReplacementRefused(existing.value.id, kind.value == DirectoryKind);
        if refused.Some? { return Err(refused.value); }
      }

      Update(p, node => Emptied(node, n));
      UpdatesAre(t, p, n, source.value, 0);
      var replaced: Option<DirEntry> := None;
      var newParent := Read(q);
      if newParent.Some? {
        if !newParent.value.content.Dir? { return Err(ENOTDIR); }
        if m in newParent.value.content.entries {
          replaced := Some(newParent.value.content.entries[m]);
        }
      }
      Enter(p, q, m, DirEntry(target, kind.value));
      if replaced.Some? {
        Disown(q, replaced.value);
      }
      r := Ok(());
    }
  }
}
