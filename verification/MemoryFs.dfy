/**
 * fuse3/examples/memory_fs.rs: the in-memory filesystem, whose nodes live in the runtime's table.
 *
 * Each operation is one atomic call. The short leases it takes and gives back around single reads and writes
 * have no net effect and are left out. Times, owners, permissions and devices are not part of this model.
 */
module MemoryFs {
  import opened Base
  import opened Nodes
  import opened PosixTree

  datatype FileKind = RegularFile | DirectoryKind | SymlinkKind | CharDevice | BlockDevice | NamedPipe | Socket

  datatype DirEntry = DirEntry(id: nat, kind: FileKind)

  datatype Content = Dir(entries: map<Name, DirEntry>) | File(bytes: seq<Byte>) | Symlink(target: seq<Byte>) | Special

  datatype Node = Node(kind: FileKind, content: Content, nlink: nat)

  type Mem = Table<Node>

  // ---------- small reads and writes ----------

  function NewNode(kind: FileKind, content: Content): Node
  {
    Node(kind, content, if kind == DirectoryKind then 2 else 1)
  }

  const EMPTY: Mem := Initial(NewNode(DirectoryKind, Dir(map[])))

  /** `entry`. */
  function EntryOf(t: Mem, p: nat, n: Name): Result<DirEntry>
  {
    if p !in t.slots then Err(ENOENT)
    else match t.slots[p].payload.content
      case Dir(entries) => if n in entries then Ok(entries[n]) else Err(ENOENT)
      case _ => Err(ENOTDIR)
  }

  /** `kind`. */
  function KindOf(t: Mem, id: nat): Result<FileKind>
  {
    if id in t.slots then Ok(t.slots[id].payload.kind) else Err(ENOENT)
  }

  /** `check_new_entry`: the error, if there is one. */
  function CheckNewEntry(t: Mem, p: nat, n: Name): Option<Errno>
  {
    match EntryOf(t, p, n)
    case Ok(_) => Some(EEXIST)
    case Err(e) => if e == ENOENT && p in t.slots then None else Some(e)
  }

  /** Writing a node under its lock, if it is live. */
  function Write(t: Mem, id: nat, node: Node): Mem
  {
    if id in t.slots then Store(t, id, t.slots[id].(payload := node)) else t
  }

  function WithEntry(t: Mem, p: nat, n: Name, e: DirEntry): Mem
  {
    if p in t.slots && t.slots[p].payload.content.Dir? then
      Write(t, p, t.slots[p].payload.(content := Dir(t.slots[p].payload.content.entries[n := e])))
    else t
  }

  function WithoutEntry(t: Mem, p: nat, n: Name): Mem
  {
    if p in t.slots && t.slots[p].payload.content.Dir? then
      Write(t, p, t.slots[p].payload.(content := Dir(t.slots[p].payload.content.entries - {n})))
    else t
  }

  function NlinkOf(t: Mem, id: nat): nat
  {
    if id in t.slots then t.slots[id].payload.nlink else 0
  }

  function WithNlink(t: Mem, id: nat, nlink: nat): Mem
  {
    if id in t.slots then Write(t, id, t.slots[id].payload.(nlink := nlink)) else t
  }

  function OneMore(t: Mem, id: nat): Mem
  {
    WithNlink(t, id, NlinkOf(t, id) + 1)
  }

  function OneLess(t: Mem, id: nat): Mem
  {
    WithNlink(t, id, SaturatingSub(NlinkOf(t, id), 1))
  }

  // ---------- the operations ----------

  /** `link_into`. */
  function LinkedInto(t: Mem, p: nat, n: Name, e: DirEntry): Mem
  {
    var t1 := WithEntry(t, p, n, e);
    if e.kind == DirectoryKind then OneMore(t1, p) else t1
  }

  /** `create_child`, under `mknod`, `mkdir`, `symlink` and `create`. */
  function CreateChild(t: Mem, p: nat, n: Name, kind: FileKind, content: Content): (Mem, Result<nat>)
  {
    var refused := CheckNewEntry(t, p, n);
    if refused.Some? then (t, Err(refused.value))
    else
      var (id, t1) := Insert(t, NewNode(kind, content), p);
      (LinkedInto(t1, p, n, DirEntry(id, kind)), Ok(id))
  }

  function UnlinkEntry(t: Mem, p: nat, n: Name): (Mem, Result<()>)
  {
    var entry := EntryOf(t, p, n);
    if entry.Err? then (t, Err(entry.error))
    else
      var id := entry.value.id;
      var kind := KindOf(t, id);
      if kind.Err? then (t, Err(kind.error))
      else if kind.value == DirectoryKind then (t, Err(EISDIR))
      else (RemoveLink(OneLess(WithoutEntry(t, p, n), id), id), Ok(()))
  }

  function RmdirEntry(t: Mem, p: nat, n: Name): (Mem, Result<()>)
  {
    var entry := EntryOf(t, p, n);
    if entry.Err? then (t, Err(entry.error))
    else
      var id := entry.value.id;
      if id !in t.slots then (t, Err(ENOENT))
      else match t.slots[id].payload.content
        case Dir(entries) =>
          if entries != map[] then (t, Err(ENOTEMPTY))
          else (RemoveLink(WithNlink(OneLess(WithoutEntry(t, p, n), p), id, 0), id), Ok(()))
        case _ => (t, Err(ENOTDIR))
  }

  /** `link`. */
  function LinkEntry(t: Mem, id: nat, p: nat, n: Name): (Mem, Result<()>)
  {
    var kind := KindOf(t, id);
    if kind.Err? then (t, Err(kind.error))
    else if kind.value == DirectoryKind then (t, Err(EPERM))
    else
      var refused := CheckNewEntry(t, p, n);
      if refused.Some? then (t, Err(refused.value))
      else (OneMore(AddLink(LinkedInto(t, p, n, DirEntry(id, kind.value)), id), id), Ok(()))
  }

  /** The inspection of the destination in `rename`: the error, if there is one. */
  function ReplaceRefusal(t: Mem, existing: nat, directory: bool): Option<Errno>
  {
    if existing !in t.slots then Some(ENOENT)
    else match t.slots[existing].payload.content
      case Dir(entries) => if !directory then Some(EISDIR) else if entries != map[] then Some(ENOTEMPTY) else None
      case _ => if directory then Some(ENOTDIR) else None
  }

  /** The end of `rename`: the replaced entry leaves the counts, and then the table. */
  function Disowned(t: Mem, q: nat, gone: DirEntry): Mem
  {
    var t1 := if gone.kind == DirectoryKind then OneLess(t, q) else t;
    if gone.kind == DirectoryKind then WithNlink(t1, gone.id, 0) else OneLess(t1, gone.id)
  }

  /** The target's new entry, and the subdirectory counts of the two parents. */
  function Entered(t: Mem, p: nat, q: nat, m: Name, target: DirEntry): Mem
  {
    var t1 := WithEntry(t, q, m, target);
    if target.kind == DirectoryKind && p != q then OneMore(OneLess(Reparent(t1, target.id, q), p), q) else t1
  }

  /** The writes of `rename`, once nothing is left to refuse but a destination that is no directory. */
  function RenameWrites(t: Mem, p: nat, n: Name, q: nat, m: Name, target: DirEntry): (Mem, Result<()>)
  {
    var t1 := WithoutEntry(t, p, n);
    if q in t1.slots && !t1.slots[q].payload.content.Dir? then (t1, Err(ENOTDIR))
    else
      var gone := EntryOf(t1, q, m);
      var t2 := Entered(t1, p, q, m, target);
      (if gone.Ok? then RemoveLink(Disowned(t2, q, gone.value), gone.value.id) else t2, Ok(()))
  }

  function RenameEntry(t: Mem, p: nat, n: Name, q: nat, m: Name): (Mem, Result<()>)
  {
    var source := EntryOf(t, p, n);
    if source.Err? then (t, Err(source.error))
    else
      var target := source.value.id;
      var kind := KindOf(t, target);
      if kind.Err? then (t, Err(kind.error))
      else
        var existing := EntryOf(t, q, m);
        if existing.Err? && existing.error != ENOENT then (t, Err(existing.error))
        else if existing.Ok? && existing.value.id == target then (t, Ok(()))
        else
          var refused :=
            if existing.Ok? then ReplaceRefusal(t, existing.value.id, kind.value == DirectoryKind) else None;
          if refused.Some? then (t, Err(refused.value))
          else RenameWrites(t, p, n, q, m, DirEntry(target, kind.value))
  }

  /** A failing `rename` has written nothing: its one late error, after the source entry is gone, cannot be reached. */
  lemma RenameIsAllOrNothing(t: Mem, p: nat, n: Name, q: nat, m: Name)
    ensures RenameEntry(t, p, n, q, m).1.Err? ==> RenameEntry(t, p, n, q, m).0 == t
  {}

  // ---------- the hierarchy the nodes form ----------

  function Children(entries: map<Name, DirEntry>): map<Name, nat>
  {
    map n | n in entries :: entries[n].id
  }

  function ObjectOf(node: Node): Object
  {
    match node.content
    case Dir(entries) => Directory(Children(entries))
    case _ => Leaf
  }

  function TreeOf(t: Mem): Tree
  {
    map id | id in t.slots :: ObjectOf(t.slots[id].payload)
  }

  function Subdirectories(t: Tree, p: nat): set<Name>
  {
    if IsDir(t, p) then set n | n in t[p].children && IsDir(t, t[p].children[n]) else {}
  }

  /** A node's link count, and its slot's, are the entries that name it; `owed` links are about to be removed. */
  ghost predicate NodeOk(tree: Tree, id: nat, slot: Slot<Node>, owed: nat)
  {
    var node, names := slot.payload, |Namings(tree, id)|;
    && (node.kind == DirectoryKind <==> node.content.Dir?)
    && slot.links == (if id == ROOT then 1 else names) + owed
    && if node.content.Dir? then
         && node.nlink == (if Linked(tree, id) then 2 + |Subdirectories(tree, id)| else 0)
         && (!Linked(tree, id) ==> node.content.entries == map[])
         && (forall p, n | (p, n) in Namings(tree, id) :: slot.parent == p)
       else node.nlink == names
  }

  /** An entry caches the kind of the live node it names. */
  ghost predicate EntriesOk(t: Mem)
  {
    forall p, n | EntryOf(t, p, n).Ok? ::
      var e := EntryOf(t, p, n).value;
      e.id in t.slots && e.kind == t.slots[e.id].payload.kind
  }

  /** `NodeOk` in place, but for one link owed to `debtor`. */
  ghost predicate NodeAt(t: Mem, id: nat, debtor: Option<nat>)
    requires id in t.slots
  {
    NodeOk(TreeOf(t), id, t.slots[id], if debtor == Some(id) then 1 else 0)
  }

  /** The memory filesystem is a tree with exact counts, but for one link owed to `debtor`. */
  ghost predicate MemOwing(t: Mem, debtor: Option<nat>)
  {
    && Exact(t)
    && WellFormed(TreeOf(t))
    && EntriesOk(t)
    && forall id {:trigger NodeAt(t, id, debtor)} | id in t.slots :: NodeAt(t, id, debtor)
  }

  ghost predicate MemOk(t: Mem)
  {
    MemOwing(t, None)
  }
}
