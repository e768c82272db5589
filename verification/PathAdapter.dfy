/**
 * typed_fuse_core/src/path_fs.rs: the path adapter over a wrapped filesystem that behaves like a POSIX hierarchy.
 *
 * `stands` is history: the object of the hierarchy each node was made for. The wrapped filesystem gets paths,
 * resolves them, and may refuse any call with an error of its own (`deny`).
 */
module PathAdapter {
  import opened Base
  import opened Nodes
  import opened PosixTree
  import opened PathNamespace
  import opened Enumeration

  datatype Adapter = Adapter(x: Index, tree: Tree, stands: map<nat, nat>)
  {
    function Names(): Names { x.names }

    function Standing(id: nat): nat
    {
      if id in stands then stands[id] else 0
    }
  }

  /** A new adapter over a filesystem that may hold anything already: the adapter has seen nothing but its root. */
  function Over(tree: Tree): Adapter
  {
    Adapter(FirstIndex(), tree, map[ROOT := TOP])
  }

  type Reply = Result<Option<nat>>

  // ---------- the wrapped filesystem, called with paths ----------

  function Denied<T>(deny: Option<Errno>, r: Result<T>): Result<T>
  {
    if deny.Some? then Err(deny.value) else r
  }

  function At(t: Tree, path: Path): Result<nat>
  {
    match Resolve(t, path)
    case None => Err(ENOENT)
    case Some(o) => Ok(o)
  }

  ghost function InnerRename(t: Tree, from: Path, n: Name, to: Path, m: Name): Result<Tree>
  {
    var (p, q) := (At(t, from), At(t, to));
    if p.Err? then Err(p.error) else if q.Err? then Err(q.error) else Rename(t, p.value, n, q.value, m)
  }

  function InnerLink(t: Tree, source: Path, to: Path, m: Name): Result<Tree>
  {
    var (o, q) := (At(t, source), At(t, to));
    if o.Err? then Err(o.error) else if q.Err? then Err(q.error) else Link(t, o.value, q.value, m)
  }

  function InnerRemove(t: Tree, parent: Path, n: Name, directory: bool): Result<Tree>
  {
    var p := At(t, parent);
    if p.Err? then Err(p.error) else if directory then Rmdir(t, p.value, n) else Unlink(t, p.value, n)
  }

  function InnerCreate(t: Tree, parent: Path, n: Name, o: nat, directory: bool): Result<Tree>
  {
    var p := At(t, parent);
    if p.Err? then Err(p.error) else if o in t then Err(EIO) else Create(t, p.value, n, o, directory)
  }

  /** A missing name is an answer, not an error. */
  function InnerLookup(t: Tree, parent: Path, n: Name): Result<Option<nat>>
  {
    var p := At(t, parent);
    if p.Err? then Err(p.error)
    else if p.value !in t then Err(ENOENT)
    else if !IsDir(t, p.value) then Err(ENOTDIR)
    else Ok(Child(t, p.value, n))
  }

  // ---------- the adapter's operations ----------

  /** `add_node`: the node of a name, which stands for the object the name leads to when it is first seen. */
  function NodeAdded(a: Adapter, parent: nat, name: Name): (Adapter, nat)
  {
    var (x, id, added) := Inserted(a.x, Dentry(parent, name));
    var o := Child(a.tree, a.Standing(parent), name);
    (Adapter(x, a.tree, if added && o.Some? then a.stands[id := o.value] else a.stands), id)
  }

  ghost function LookupNode(a: Adapter, parent: nat, name: Name, deny: Option<Errno>): (Adapter, Reply)
  {
    var path := PathFor(a.Names(), parent);
    if path.None? then (a, Err(ENOENT))
    else
      var found := Denied(deny, InnerLookup(a.tree, path.value, name));
      if found.Err? then (a, Err(found.error))
      else if found.value.None? then (a, Ok(None))
      else
        var (a', id) := NodeAdded(a, parent, name);
        (a', Ok(Some(id)))
  }

  /** `mknod`, `mkdir`, `symlink` and `create`; `o` is the identity of the object the wrapped filesystem makes. */
  ghost function CreateNode(a: Adapter, parent: nat, name: Name, o: nat, directory: bool, deny: Option<Errno>)
    : (Adapter, Reply)
  {
    var path := PathFor(a.Names(), parent);
    if path.None? then (a, Err(ENOENT))
    else
      var made := Denied(deny, InnerCreate(a.tree, path.value, name, o, directory));
      if made.Err? then (a, Err(made.error))
      else
        var (a', id) := NodeAdded(a.(tree := made.value), parent, name);
        (a', Ok(Some(id)))
  }

  /** `remove_entry`. */
  ghost function RemoveEntry(a: Adapter, parent: nat, name: Name, directory: bool, deny: Option<Errno>)
    : (Adapter, Reply)
  {
    var path := PathFor(a.Names(), parent);
    if path.None? then (a, Err(ENOENT))
    else
      var left := Denied(deny, InnerRemove(a.tree, path.value, name, directory));
      if left.Err? then (a, Err(left.error))
      else (a.(tree := left.value, x := NameRemoved(a.x, Dentry(parent, name))), Ok(None))
  }

  ghost function RenameEntry(
    a: Adapter, parent: nat, name: Name, newparent: nat, newname: Name, flags: nat, deny: Option<Errno>)
    : (Adapter, Reply)
  {
    if flags != 0 then (a, Err(EOPNOTSUPP))
    else
      var from, to := PathFor(a.Names(), parent), PathFor(a.Names(), newparent);
      if from.None? || to.None? then (a, Err(ENOENT))
      else
        var moved := Denied(deny, InnerRename(a.tree, from.value, name, to.value, newname));
        if moved.Err? then (a, Err(moved.error))
        else
          (a.(tree := moved.value, x := NameMoved(a.x, Dentry(parent, name), Dentry(newparent, newname))), Ok(None))
  }

  ghost function LinkEntry(a: Adapter, id: nat, newparent: nat, newname: Name, deny: Option<Errno>): (Adapter, Reply)
  {
    var source, parent := PathFor(a.Names(), id), PathFor(a.Names(), newparent);
    if source.None? || parent.None? then (a, Err(ENOENT))
    else
      var linked := Denied(deny, InnerLink(a.tree, source.value, parent.value, newname));
      if linked.Err? then (a, Err(linked.error))
      else (a.(tree := linked.value, x := NameLinked(a.x, id, Dentry(newparent, newname))), Ok(Some(id)))
  }

  // ---------- the index refines the hierarchy ----------

  ghost predicate DentryOk(a: Adapter, d: Dentry)
    requires d in a.x.names.byName
  {
    var id := a.x.names.byName[d];
    && a.Names().Attached(d.parent) && d.parent in a.stands && id in a.stands && id != ROOT
    && Child(a.tree, a.stands[d.parent], d.name) == Some(a.stands[id])
    && (IsDir(a.tree, a.stands[id]) && id in a.x.table.slots ==> a.x.table.slots[id].parent == d.parent)
  }

  /** Every bound name is a name of the hierarchy, and leads to the object its node stands for. */
  ghost predicate Refines(a: Adapter)
  {
    && WellFormed(a.tree)
    && ROOT in a.stands && a.stands[ROOT] == TOP
    && forall d | d in a.x.names.byName :: DentryOk(a, d)
  }

  ghost predicate AdapterOk(a: Adapter)
  {
    IndexOk(a.x) && Refines(a)
  }

  lemma OverIsOk(tree: Tree)
    requires WellFormed(tree)
    ensures AdapterOk(Over(tree))
  {
    FirstIndexOk();
  }

  lemma AttachedStands(a: Adapter, id: nat)
    requires AdapterOk(a) && a.Names().Attached(id)
    ensures id in a.stands && id in a.x.table.slots
    ensures id != ROOT ==>
            forall d | d in a.x.names.aliases[id] ::
              d in a.x.names.byName && a.x.names.byName[d] == id && DentryOk(a, d)
  {
    hide Exact;
    if id != ROOT {
      var d :| d in a.x.names.aliases[id];
      assert DentryOk(a, d);
    }
  }

  /** Two attached nodes never stand for one directory. */
  lemma {:induction false} DirectoriesStandOnce(a: Adapter, rank: map<nat, nat>, id: nat, id': nat)
    requires AdapterOk(a) && Ranked(a.tree, rank)
    requires a.Names().Attached(id) && a.Names().Attached(id')
    requires a.Standing(id) == a.Standing(id') && IsDir(a.tree, a.Standing(id))
    ensures id == id'
    decreases if a.Standing(id) in rank then rank[a.Standing(id)] else 0
  {
    hide Exact;
    AttachedStands(a, id);
    AttachedStands(a, id');
    if id != ROOT && id' != ROOT {
      var d, d' := FirstAlias(a.x.names.aliases[id]), FirstAlias(a.x.names.aliases[id']);
      assert DentryOk(a, d) && DentryOk(a, d');
      DirectoriesStandOnce(a, rank, d.parent, d'.parent);
    }
  }

  /** Two bound names of one directory object and one name are one dentry. */
  lemma DentriesNameOnce(a: Adapter, parent: nat, d: Dentry)
    requires AdapterOk(a) && a.Names().Attached(parent)
    requires d in a.x.names.byName && a.Standing(d.parent) == a.Standing(parent)
    ensures d.parent == parent
  {
    hide Exact;
    assert DentryOk(a, d);
    var rank :| Ranked(a.tree, rank);
    DirectoriesStandOnce(a, rank, d.parent, parent);
  }

  // ---------- paths lead to the objects ----------

  lemma {:induction false} PathLeads(a: Adapter, rank: map<nat, nat>, id: nat) returns (path: Path)
    requires AdapterOk(a) && Ranked(a.tree, rank) && a.Names().Attached(id)
    ensures IsPath(a.Names(), id, path) && Resolve(a.tree, path) == Some(a.Standing(id))
    decreases if IsDir(a.tree, a.Standing(id)) then 0 else 1,
              if a.Standing(id) in rank then rank[a.Standing(id)] else 0
  {
    hide Exact;
    AttachedStands(a, id);
    if id == ROOT {
      path := [];
    } else {
      var d := FirstAlias(a.x.names.aliases[id]);
      assert DentryOk(a, d);
      var parent := PathLeads(a, rank, d.parent);
      path := parent + [d.name];
      assert path[..|path| - 1] == parent;
    }
  }

  /**
   * Every node with a place in the hierarchy has a path, and the wrapped filesystem resolves it to the node's object.
   */
  lemma PathsResolve(a: Adapter, id: nat)
    requires AdapterOk(a) && a.Names().Attached(id)
    ensures PathFor(a.Names(), id).Some?
    ensures Resolve(a.tree, PathFor(a.Names(), id).value) == Some(a.Standing(id))
  {
    var rank :| Ranked(a.tree, rank);
    var path := PathLeads(a, rank, id);
    PathForIs(a.Names(), id, path);
  }

  lemma OnlyAttachedHavePaths(ns: Names, id: nat)
    requires PathFor(ns, id).Some?
    ensures ns.Attached(id)
  {}

  /** The path the adapter passes for a node leads the wrapped filesystem to the node's object. */
  lemma PathMeans(a: Adapter, id: nat)
    requires AdapterOk(a) && PathFor(a.Names(), id).Some?
    ensures a.Names().Attached(id) && At(a.tree, PathFor(a.Names(), id).value) == Ok(a.Standing(id))
  {
    OnlyAttachedHavePaths(a.Names(), id);
    PathsResolve(a, id);
  }

  // ---------- every operation keeps the refinement ----------

  lemma NodeAddedKeeps(a: Adapter, parent: nat, name: Name)
    requires AdapterOk(a) && a.Names().Attached(parent) && Child(a.tree, a.Standing(parent), name).Some?
    ensures var (a', id) := NodeAdded(a, parent, name);
            && AdapterOk(a') && a'.Names().Attached(id)
            && Some(a'.Standing(id)) == Child(a.tree, a.Standing(parent), name)
  {
    hide IndexOk, AddsOneNode, Refines;
    var d := Dentry(parent, name);
    var (a', id) := NodeAdded(a, parent, name);
    InsertedKeeps(a.x, d);
    AttachedStands(a, parent);
    if Inserted(a.x, d).2 {
      assert AddsOneNode(a.x, a'.x, d, id);
      AddedRefines(a, a', d, id);
    }
    BoundIsAttached(a', d);
  }

  lemma AddedRefines(a: Adapter, a': Adapter, d: Dentry, id: nat)
    requires AdapterOk(a) && AddsOneNode(a.x, a'.x, d, id) && a'.tree == a.tree && d !in a.x.names.byName
    requires a.Names().Attached(d.parent) && d.parent in a.stands && id in a'.stands
    requires a'.stands == a.stands[id := a'.stands[id]]
             && Child(a.tree, a.Standing(d.parent), d.name) == Some(a'.stands[id])
    ensures Refines(a')
  {
    hide Exact, WellFormed, KeyOk;
    forall e | e in a'.x.names.byName ensures DentryOk(a', e) {
      if e in a.x.names.byName {
        assert DentryOk(a, e);
        AttachedStands(a, e.parent);
      }
    }
  }

  lemma BoundIsAttached(a: Adapter, d: Dentry)
    requires AdapterOk(a) && d in a.x.names.byName
    ensures a.Names().Attached(a.x.names.byName[d])
    ensures Child(a.tree, a.Standing(d.parent), d.name) == Some(a.Standing(a.x.names.byName[d]))
  {
    assert DentryOk(a, d);
  }

  lemma CreatedTreeRefines(a: Adapter, p: nat, name: Name, o: nat, directory: bool)
    requires AdapterOk(a) && o !in a.tree && Create(a.tree, p, name, o, directory).Ok?
    ensures AdapterOk(a.(tree := Create(a.tree, p, name, o, directory).value))
  {
    hide Exact;
    var a' := a.(tree := Create(a.tree, p, name, o, directory).value);
    CreateKeepsTree(a.tree, p, name, o, directory);
    forall e | e in a'.x.names.byName ensures DentryOk(a', e) {
      assert DentryOk(a, e);
      assert a.stands[a.x.names.byName[e]] in a.tree;
    }
  }

  /** A node standing for a non-directory, or for an empty directory, is the parent of no dentry. */
  lemma ChildlessHasNoDentries(a: Adapter, id: nat)
    requires AdapterOk(a) && id in a.stands
    requires IsDir(a.tree, a.stands[id]) ==> a.tree[a.stands[id]].children == map[]
    ensures forall e | e in a.x.names.byName :: e.parent != id
  {
    forall e | e in a.x.names.byName ensures e.parent != id { assert DentryOk(a, e); }
  }

  lemma RemovalRefines(a: Adapter, parent: nat, name: Name)
    requires AdapterOk(a) && a.Names().Attached(parent) && Child(a.tree, a.Standing(parent), name).Some?
    requires var o := Child(a.tree, a.Standing(parent), name).value; IsDir(a.tree, o) ==> a.tree[o].children == map[]
    ensures AdapterOk(a.(tree := Unbind(a.tree, a.Standing(parent), name), x := NameRemoved(a.x, Dentry(parent, name))))
  {
    hide Exact, WellFormed, IndexOk, NameRemoved;
    var p, d := a.Standing(parent), Dentry(parent, name);
    var a' := a.(tree := Unbind(a.tree, p, name), x := NameRemoved(a.x, d));
    UnbindKeepsTree(a.tree, p, name);
    UnbindChild(a.tree, p, name);
    NameRemovedKeeps(a.x, d);
    IndexIsInverse(a.x);
    RemovedBindings(a.x, d);
    AttachedStands(a, parent);
    forall e | e in a'.x.names.byName ensures DentryOk(a', e) {
      assert DentryOk(a, e);
      if d in a.x.names.byName {
        assert DentryOk(a, d);
        ChildlessHasNoDentries(a, a.x.names.byName[d]);
      }
      if a.stands[e.parent] == p { DentriesNameOnce(a, parent, e); }
    }
  }

  lemma LinkRefines(a: Adapter, id: nat, newparent: nat, newname: Name)
    requires AdapterOk(a) && a.Names().Attached(id) && a.Names().Attached(newparent)
    requires Link(a.tree, a.Standing(id), a.Standing(newparent), newname).Ok?
    ensures AdapterOk(a.(tree := Link(a.tree, a.Standing(id), a.Standing(newparent), newname).value,
                         x := NameLinked(a.x, id, Dentry(newparent, newname))))
  {
    hide IndexOk, Refines, WellFormed, NameLinked, Link;
    var d := Dentry(newparent, newname);
    var a' := a.(tree := Link(a.tree, a.Standing(id), a.Standing(newparent), newname).value,
      x := NameLinked(a.x, id, d));
    AttachedStands(a, id);
    RootIsTop(a);
    LinkRefinesNames(a, a', id, newparent, newname);
    NameLinkedKeepsExactly(a.x, id, d);
  }

  lemma LinkRefinesNames(a: Adapter, a': Adapter, id: nat, newparent: nat, newname: Name)
    requires AdapterOk(a) && a.Names().Attached(id) && a.Names().Attached(newparent)
    requires Link(a.tree, a.Standing(id), a.Standing(newparent), newname) == Ok(a'.tree)
    requires a' == a.(tree := a'.tree, x := NameLinked(a.x, id, Dentry(newparent, newname)))
    ensures Refines(a') && Dentry(newparent, newname) !in a.x.names.byName && id != ROOT
  {
    hide Exact, WellFormed, KeyOk, IndexOk;
    var d := Dentry(newparent, newname);
    RootIsTop(a);
    AttachedStands(a, id);
    AttachedStands(a, newparent);
    LinkKeepsTree(a.tree, a.Standing(id), a.Standing(newparent), newname);
    BindChild(a.tree, a.Standing(newparent), newname, a.Standing(id));
    assert d in a.x.names.byName ==> DentryOk(a, d);
    forall e | e in a'.x.names.byName ensures DentryOk(a', e) {
      if e != d { assert DentryOk(a, e); }
    }
  }

  lemma RootIsTop(a: Adapter)
    requires AdapterOk(a)
    ensures IsDir(a.tree, a.Standing(ROOT))
  {}

  /** What a successful rename() says about its four arguments. */
  ghost predicate Renamed(t: Tree, t': Tree, p: nat, n: Name, q: nat, m: Name)
  {
    Rename(t, p, n, q, m) == Ok(t')
  }

  lemma RenamedChildren(t: Tree, t': Tree, p: nat, n: Name, q: nat, m: Name)
    requires WellFormed(t) && Renamed(t, t', p, n, q, m)
    ensures WellFormed(t') && IsDir(t, p) && Child(t, p, n).Some?
    ensures forall x :: IsDir(t', x) == IsDir(t, x)
    ensures if Child(t, q, m) == Child(t, p, n) then t' == t
            else
              && IsDir(t, q)
              && forall x, y :: Child(t', x, y) == if x == q && y == m then Child(t, p, n)
                                                   else if x == p && y == n then None else Child(t, x, y)
  {
    RenameKeepsTree(t, p, n, q, m);
    if Child(t, q, m) != Child(t, p, n) { MoveChild(t, p, n, q, m, Child(t, p, n).value); }
  }

  /** The move of a bound source, in terms of bindings. */
  lemma MovedBindings(x: Index, from: Dentry, to: Dentry)
    requires Inverse(x.names) && from in x.names.byName
    requires to in x.names.byName ==> x.names.byName[to] != x.names.byName[from]
    ensures var x', source := NameMoved(x, from, to), x.names.byName[from];
            && x'.names.byName == (x.names.byName - {from})[to := source]
            && (forall id | id in x.names.aliases && !(to in x.names.byName && id == x.names.byName[to]) ::
                  id in x'.names.aliases && (id != source ==> x'.names.aliases[id] == x.names.aliases[id]))
            && source in x'.names.aliases
            && x'.names.aliases[source] == (x.names.aliases[source] - {from}) + {to}
  {
    RemovedKeepsInverse(x.names, to);
  }

  lemma MovedParents(x: Index, from: Dentry, to: Dentry)
    requires from in x.names.byName
    requires to in x.names.byName ==> x.names.byName[to] != x.names.byName[from]
    ensures var x', source := NameMoved(x, from, to), x.names.byName[from];
            && (forall id | id in x'.table.slots && id != source ::
                  id in x.table.slots && x'.table.slots[id].parent == x.table.slots[id].parent)
            && (source in x'.table.slots ==> x'.table.slots[source].parent == to.parent)
  {}

  lemma RemovedBindings(x: Index, d: Dentry)
    requires Inverse(x.names)
    ensures var x' := NameRemoved(x, d);
            && x'.names.byName == x.names.byName - {d}
            && (forall id | id in x.names.aliases && !(d in x.names.byName && id == x.names.byName[d]) ::
                  id in x'.names.aliases && x'.names.aliases[id] == x.names.aliases[id])
            && (forall id | id in x'.table.slots ::
                  id in x.table.slots && x'.table.slots[id].parent == x.table.slots[id].parent)
  {
    RemovedKeepsInverse(x.names, d);
  }

  lemma IndexIsInverse(x: Index)
    requires IndexOk(x)
    ensures Inverse(x.names)
  {}

  /** The index moves with the hierarchy when the source is bound. */
  lemma RenameRefines(a: Adapter, t': Tree, parent: nat, name: Name, newparent: nat, newname: Name)
    requires AdapterOk(a) && a.Names().Attached(parent) && a.Names().Attached(newparent)
    requires Renamed(a.tree, t', a.Standing(parent), name, a.Standing(newparent), newname)
    requires Dentry(parent, name) in a.x.names.byName
    ensures AdapterOk(a.(tree := t', x := NameMoved(a.x, Dentry(parent, name), Dentry(newparent, newname))))
  {
    hide Exact, WellFormed, Rename, NameMoved, IndexOk;
    var from, to := Dentry(parent, name), Dentry(newparent, newname);
    var source := a.x.names.byName[from];
    var a' := a.(tree := t', x := NameMoved(a.x, from, to));
    AttachedStands(a, parent);
    AttachedStands(a, newparent);
    assert DentryOk(a, from);
    RenamedChildren(a.tree, t', a.Standing(parent), name, a.Standing(newparent), newname);
    NameMovedKeeps(a.x, from, to);
    if to in a.x.names.byName && a.x.names.byName[to] == source {
      assert DentryOk(a, to);
      SameNodeStays(a.x, from, to);
    } else {
      IndexIsInverse(a.x);
      MovedBindings(a.x, from, to);
      MovedParents(a.x, from, to);
      if to in a.x.names.byName { ReplacedIsChildless(a, t', parent, name, newparent, newname); }
      forall e | e in a'.x.names.byName ensures DentryOk(a', e) {
        if e != to {
          assert DentryOk(a, e);
          if a.stands[e.parent] == a.Standing(parent) { DentriesNameOnce(a, parent, e); }
          if a.stands[e.parent] == a.Standing(newparent) { DentriesNameOnce(a, newparent, e); }
          if a.x.names.byName[e] == source && IsDir(a.tree, a.stands[source]) { SourceNamedOnce(a, parent, name, e); }
        }
      }
    }
  }

  lemma SameNodeStays(x: Index, from: Dentry, to: Dentry)
    requires from in x.names.byName && to in x.names.byName && x.names.byName[to] == x.names.byName[from]
    ensures NameMoved(x, from, to) == x
  {}

  lemma ReplacedIsChildless(a: Adapter, t': Tree, parent: nat, name: Name, newparent: nat, newname: Name)
    requires AdapterOk(a) && a.Names().Attached(parent) && a.Names().Attached(newparent)
    requires Renamed(a.tree, t', a.Standing(parent), name, a.Standing(newparent), newname)
    requires var from, to := Dentry(parent, name), Dentry(newparent, newname);
             from in a.x.names.byName && to in a.x.names.byName && a.x.names.byName[to] != a.x.names.byName[from]
    ensures var replaced := a.x.names.byName[Dentry(newparent, newname)];
            newparent != replaced && forall e | e in a.x.names.byName :: e.parent != replaced
  {
    hide Exact;
    var from, to := Dentry(parent, name), Dentry(newparent, newname);
    var replaced := a.x.names.byName[to];
    assert DentryOk(a, from) && DentryOk(a, to);
    if IsDir(a.tree, a.stands[replaced]) && a.stands[replaced] == a.stands[a.x.names.byName[from]] {
      var rank :| Ranked(a.tree, rank);
      DirectoriesStandOnce(a, rank, replaced, a.x.names.byName[from]);
    }
    ChildlessHasNoDentries(a, replaced);
  }

  lemma SourceNamedOnce(a: Adapter, parent: nat, name: Name, e: Dentry)
    requires AdapterOk(a) && Dentry(parent, name) in a.x.names.byName && e in a.x.names.byName
    requires a.x.names.byName[e] == a.x.names.byName[Dentry(parent, name)]
    requires IsDir(a.tree, a.Standing(a.x.names.byName[e]))
    ensures e == Dentry(parent, name)
  {
    hide Exact;
    assert DentryOk(a, e) && DentryOk(a, Dentry(parent, name));
    DentriesNameOnce(a, parent, e);
  }

  // ---------- rename, with the source bound or not ----------

  /**
   * A bound source moves its node with it; an unbound one leaves the index alone, so the destination must not be
   * bound to something else.
   */
  ghost predicate RenameTracked(a: Adapter, parent: nat, name: Name, newparent: nat, newname: Name)
  {
    || Dentry(parent, name) in a.x.names.byName
    || Dentry(newparent, newname) !in a.x.names.byName
    || Child(a.tree, a.Standing(newparent), newname) == Child(a.tree, a.Standing(parent), name)
  }

  /** What the call can be seen to do beforehand: both paths exist, and the wrapped filesystem will rename. */
  ghost predicate RenameSucceeds(
    a: Adapter, parent: nat, name: Name, newparent: nat, newname: Name, flags: nat, deny: Option<Errno>)
  {
    var from, to := PathFor(a.Names(), parent), PathFor(a.Names(), newparent);
    flags == 0 && deny.None? && from.Some? && to.Some? && InnerRename(a.tree, from.value, name, to.value, newname).Ok?
  }

  lemma UntrackedRename(a: Adapter, t': Tree, parent: nat, name: Name, newparent: nat, newname: Name)
    requires AdapterOk(a) && a.Names().Attached(parent) && a.Names().Attached(newparent)
    requires Renamed(a.tree, t', a.Standing(parent), name, a.Standing(newparent), newname)
    requires Dentry(parent, name) !in a.x.names.byName
    ensures AdapterOk(a.(tree := t')) <==> RenameTracked(a, parent, name, newparent, newname)
  {
    hide Exact, WellFormed, Rename;
    var to := Dentry(newparent, newname);
    var a' := a.(tree := t');
    AttachedStands(a, parent);
    AttachedStands(a, newparent);
    RenamedChildren(a.tree, t', a.Standing(parent), name, a.Standing(newparent), newname);
    if RenameTracked(a, parent, name, newparent, newname) {
      forall e | e in a'.x.names.byName ensures DentryOk(a', e) {
        assert DentryOk(a, e);
        if a.stands[e.parent] == a.Standing(parent) { DentriesNameOnce(a, parent, e); }
        if a.stands[e.parent] == a.Standing(newparent) { DentriesNameOnce(a, newparent, e); }
      }
    } else {
      assert DentryOk(a, to);
      assert !DentryOk(a', to);
    }
  }

  /**
   * A successful rename keeps the index a refinement of the hierarchy if and only if its source is bound,
   * its destination is unbound, or both names already lead to one object.
   */
  lemma RenameRefinesExactly(
    a: Adapter, parent: nat, name: Name, newparent: nat, newname: Name, flags: nat, deny: Option<Errno>)
    requires AdapterOk(a)
    ensures var (a', r) := RenameEntry(a, parent, name, newparent, newname, flags, deny);
            && (r.Err? ==> a' == a)
            && (r.Ok? ==> (AdapterOk(a') <==> RenameTracked(a, parent, name, newparent, newname)))
  {
    hide AdapterOk;
    var (a', r) := RenameEntry(a, parent, name, newparent, newname, flags, deny);
    if r.Ok? {
      PathMeans(a, parent);
      PathMeans(a, newparent);
      if Dentry(parent, name) in a.x.names.byName {
        RenameRefines(a, a'.tree, parent, name, newparent, newname);
      } else {
        UntrackedRename(a, a'.tree, parent, name, newparent, newname);
      }
    }
  }

  // ---------- listings ----------

  /** One emission of a directory read: the wrapped filesystem lists names it has. */
  function Listed(a: Adapter, dir: nat, plus: bool, e: Entry): Adapter
  {
    if e.Dots() || Child(a.tree, a.Standing(dir), e.name).None? then a
    else
      var s := Emit(Sink(a.x, [], []), dir, plus, e);
      Adapter(s.x, a.tree,
              if Dentry(dir, e.name) in s.x.names.byName then NodeAdded(a, dir, e.name).0.stands else a.stands)
  }

  function ListedAll(a: Adapter, dir: nat, plus: bool, list: seq<Entry>): Adapter
  {
    if list == [] then a else Listed(ListedAll(a, dir, plus, list[..|list| - 1]), dir, plus, list[|list| - 1])
  }

  /** `readdir` and `readdirplus`, whose callback emits `list` and then succeeds or fails. */
  ghost function ListEntries(a: Adapter, dir: nat, plus: bool, list: seq<Entry>, deny: Option<Errno>): (Adapter, Reply)
  {
    if PathFor(a.Names(), dir).None? then (a, Err(ENOENT))
    else if deny.Some? then
      (a.(x := Forgotten(RolledBack(EmitAll(Sink(a.x, [], []), dir, plus, list))).x), Err(deny.value))
    else (ListedAll(a, dir, plus, list), Ok(None))
  }

  /** The refinement speaks of the bindings and of live slots only. */
  lemma SameBindingsRefine(a: Adapter, x: Index)
    requires AdapterOk(a) && IndexOk(x)
    requires x.names.byName == a.x.names.byName && x.names.aliases == a.x.names.aliases
    requires x.table.slots == a.x.table.slots
    ensures AdapterOk(a.(x := x))
  {
    hide IndexOk, WellFormed;
    var a' := a.(x := x);
    forall e | e in x.names.byName ensures DentryOk(a', e) { assert DentryOk(a, e); }
  }

  lemma ExtendedIsOk(x: Index, s: Sink)
    requires Extends(x, s)
    ensures IndexOk(s.x)
  {}

  lemma ListedKeeps(a: Adapter, dir: nat, plus: bool, e: Entry)
    requires AdapterOk(a) && a.Names().Attached(dir)
    ensures AdapterOk(Listed(a, dir, plus, e)) && Listed(a, dir, plus, e).Names().Attached(dir)
  {
    hide IndexOk, Refines, Inserted, Extends, NameRemoved, Retain;
    if !e.Dots() && Child(a.tree, a.Standing(dir), e.name).Some? {
      var d := Dentry(dir, e.name);
      var s := Emit(Sink(a.x, [], []), dir, plus, e);
      StartExtends(a.x);
      EmitExtends(a.x, Sink(a.x, [], []), dir, plus, e);
      NodeAddedKeeps(a, dir, e.name);
      InsertedKeeps(a.x, d);
      InsertedIsNew(a.x, d);
      var a1 := NodeAdded(a, dir, e.name).0;
      IndexIsBound(a1.x);
      if e.fits && plus {
        CountingRefines(a1, OpLookup(Inserted(a.x, d).1));
      } else if !e.fits && Inserted(a.x, d).2 {
        NothingLeftOver(a.x, s);
        ExtendedIsOk(a.x, s);
        SameBindingsRefine(a, s.x);
      }
    }
  }

  lemma ListedStands(a: Adapter, dir: nat, plus: bool, e: Entry)
    requires AdapterOk(a) && a.Names().Attached(dir)
    ensures Listed(a, dir, plus, e).Standing(dir) == a.Standing(dir)
  {
    hide Exact, Inserted, Emit;
    AttachedStands(a, dir);
    InsertedKeeps(a.x, Dentry(dir, e.name));
  }

  lemma {:induction false} ListedAllKeeps(a: Adapter, dir: nat, plus: bool, list: seq<Entry>)
    requires AdapterOk(a) && a.Names().Attached(dir)
    ensures AdapterOk(ListedAll(a, dir, plus, list)) && ListedAll(a, dir, plus, list).Names().Attached(dir)
    ensures ListedAll(a, dir, plus, list).Standing(dir) == a.Standing(dir)
  {
    hide AdapterOk, Listed;
    if list != [] {
      ListedAllKeeps(a, dir, plus, list[..|list| - 1]);
      ListedKeeps(ListedAll(a, dir, plus, list[..|list| - 1]), dir, plus, list[|list| - 1]);
      ListedStands(ListedAll(a, dir, plus, list[..|list| - 1]), dir, plus, list[|list| - 1]);
    }
  }

  /** A listing of names the directory has does to the index what the sinks do. */
  lemma {:induction false} ListedIsEmitted(a: Adapter, dir: nat, plus: bool, list: seq<Entry>)
    requires AdapterOk(a) && a.Names().Attached(dir)
    requires forall e | e in list :: e.Dots() || Child(a.tree, a.Standing(dir), e.name).Some?
    ensures ListedAll(a, dir, plus, list).x == EmitAll(Sink(a.x, [], []), dir, plus, list).x
  {
    hide AdapterOk;
    if list != [] {
      var front, last := list[..|list| - 1], list[|list| - 1];
      ListedIsEmitted(a, dir, plus, front);
      ListedAllKeeps(a, dir, plus, front);
      ListingsKeepTheTree(a, dir, plus, front);
      assert last in list;
      EmitIgnoresTheRest(EmitAll(Sink(a.x, [], []), dir, plus, front), dir, plus, last);
    }
  }

  lemma EmitIgnoresTheRest(s: Sink, dir: nat, plus: bool, e: Entry)
    ensures Emit(s, dir, plus, e).x == Emit(Sink(s.x, [], []), dir, plus, e).x
  {}

  /**
   * Listings keep the refinement. One that fails leaves bindings and slots alone; one that succeeds, with names the
   * directory has, does to the index what the sinks do.
   */
  lemma ListEntriesKeeps(a: Adapter, dir: nat, plus: bool, list: seq<Entry>, deny: Option<Errno>)
    requires AdapterOk(a)
    ensures var (a', r) := ListEntries(a, dir, plus, list, deny);
            && AdapterOk(a') && a'.tree == a.tree
            && (r.Err? ==> a'.x.names.byName == a.x.names.byName && a'.x.names.aliases == a.x.names.aliases
                           && a'.x.table.slots == a.x.table.slots && a'.stands == a.stands)
            && (r.Ok? && (forall e | e in list :: e.Dots() || Child(a.tree, a.Standing(dir), e.name).Some?) ==>
                  a'.x == EmitAll(Sink(a.x, [], []), dir, plus, list).x)
  {
    hide IndexOk, Refines, Forgotten, RolledBack, EmitAll;
    if PathFor(a.Names(), dir).Some? {
      OnlyAttachedHavePaths(a.Names(), dir);
      FailedListingLeavesNoTrace(a.x, dir, plus, list);
      if deny.Some? {
        SameBindingsRefine(a, Forgotten(RolledBack(EmitAll(Sink(a.x, [], []), dir, plus, list))).x);
      } else {
        ListedAllKeeps(a, dir, plus, list);
        ListingsKeepTheTree(a, dir, plus, list);
        if forall e | e in list :: e.Dots() || Child(a.tree, a.Standing(dir), e.name).Some? {
          ListedIsEmitted(a, dir, plus, list);
        }
      }
    }
  }

  lemma {:induction false} ListingsKeepTheTree(a: Adapter, dir: nat, plus: bool, list: seq<Entry>)
    ensures ListedAll(a, dir, plus, list).tree == a.tree
  {
    if list != [] { ListingsKeepTheTree(a, dir, plus, list[..|list| - 1]); }
  }

  // ---------- every history of the adapter ----------

  datatype Call =
    | CallLookup(parent: nat, name: Name)
    | CallCreate(parent: nat, name: Name, o: nat, directory: bool)
    | CallRemove(parent: nat, name: Name, directory: bool)
    | CallRename(parent: nat, name: Name, newparent: nat, newname: Name, flags: nat)
    | CallLink(id: nat, newparent: nat, newname: Name)
    | CallList(dir: nat, plus: bool, list: seq<Entry>)
    | Counting(op: Op<PathNode>)

  /**
   * One callback of the adapter, or one counting step of the runtime; the wrapped filesystem may refuse with `deny`.
   */
  ghost function Called(a: Adapter, c: Call, deny: Option<Errno>): (Adapter, Reply)
  {
    match c
    case CallLookup(parent, name) => LookupNode(a, parent, name, deny)
    case CallCreate(parent, name, o, directory) => CreateNode(a, parent, name, o, directory, deny)
    case CallRemove(parent, name, directory) => RemoveEntry(a, parent, name, directory, deny)
    case CallRename(parent, name, newparent, newname, flags) =>
      RenameEntry(a, parent, name, newparent, newname, flags, deny)
    case CallLink(id, newparent, newname) => LinkEntry(a, id, newparent, newname, deny)
    case CallList(dir, plus, list) => ListEntries(a, dir, plus, list, deny)
    case Counting(op) =>
      (if OnlyCounts(op) then a.(x := a.x.(table := Apply(a.x.table, op))) else a, Ok(None))
  }

  /**
   * A rename that the wrapped filesystem performs has a source the adapter has seen, or a destination it has not, or
   * changes nothing; the kernel, which looks a name up before renaming it, sees to that.
   */
  ghost predicate Tracked(a: Adapter, c: Call, deny: Option<Errno>)
  {
    c.CallRename? && RenameSucceeds(a, c.parent, c.name, c.newparent, c.newname, c.flags, deny) ==>
      RenameTracked(a, c.parent, c.name, c.newparent, c.newname)
  }

  lemma CountingRefines(a: Adapter, op: Op<PathNode>)
    requires AdapterOk(a) && OnlyCounts(op)
    ensures AdapterOk(a.(x := a.x.(table := Apply(a.x.table, op))))
  {
    hide IndexOk, WellFormed, Apply;
    RuntimeKeepsIndex(a.x, op);
    CountingKeepsLinked(a.x.table, op);
    var a' := a.(x := a.x.(table := Apply(a.x.table, op)));
    forall e | e in a'.x.names.byName ensures DentryOk(a', e) { assert DentryOk(a, e); }
  }

  lemma RenameCallExactly(
    a: Adapter, parent: nat, name: Name, newparent: nat, newname: Name, flags: nat, deny: Option<Errno>)
    requires AdapterOk(a)
    ensures var (a', r) := RenameEntry(a, parent, name, newparent, newname, flags, deny);
            && (r.Ok? <==> RenameSucceeds(a, parent, name, newparent, newname, flags, deny))
            && (r.Err? ==> a' == a)
            && (AdapterOk(a') <==> (r.Ok? ==> RenameTracked(a, parent, name, newparent, newname)))
  {
    hide AdapterOk, RenameTracked, InnerRename;
    RenameRefinesExactly(a, parent, name, newparent, newname, flags, deny);
  }

  /** A call keeps the refinement if and only if it is no untracked rename; a call that fails leaves all as it was. */
  lemma CalledKeepsExactly(a: Adapter, c: Call, deny: Option<Errno>)
    requires AdapterOk(a)
    ensures AdapterOk(Called(a, c, deny).0) <==> Tracked(a, c, deny)
    ensures var (a', r) := Called(a, c, deny);
            r.Err? ==> a'.tree == a.tree && a'.stands == a.stands && a'.x.names.byName == a.x.names.byName
                       && a'.x.names.aliases == a.x.names.aliases && a'.x.table.slots == a.x.table.slots
  {
    hide AdapterOk, RenameEntry, RenameSucceeds, RenameTracked, ListEntries, Rename, Resolve;
    var (a', r) := Called(a, c, deny);
    match c
    case CallLookup(parent, name) =>
      if r.Ok? && r.value.Some? {
        PathMeans(a, parent);
        NodeAddedKeeps(a, parent, name);
      }
    case CallCreate(parent, name, o, directory) =>
      if r.Ok? {
        PathMeans(a, parent);
        CreatedTreeRefines(a, a.Standing(parent), name, o, directory);
        CreateBinds(a.tree, a.Standing(parent), name, o, directory);
        NodeAddedKeeps(a.(tree := Create(a.tree, a.Standing(parent), name, o, directory).value), parent, name);
      }
    case CallRemove(parent, name, directory) =>
      if r.Ok? {
        PathMeans(a, parent);
        RemovalRefines(a, parent, name);
      }
    case CallRename(parent, name, newparent, newname, flags) =>
      RenameCallExactly(a, parent, name, newparent, newname, flags, deny);
    case CallLink(id, newparent, newname) =>
      if r.Ok? {
        PathMeans(a, id);
        PathMeans(a, newparent);
        LinkRefines(a, id, newparent, newname);
      }
    case CallList(dir, plus, list) => ListEntriesKeeps(a, dir, plus, list, deny);
    case Counting(op) => if OnlyCounts(op) { CountingRefines(a, op); }
  }

  lemma CreateBinds(t: Tree, p: nat, n: Name, o: nat, directory: bool)
    requires o !in t && Create(t, p, n, o, directory).Ok?
    ensures Child(Create(t, p, n, o, directory).value, p, n) == Some(o)
  {}

  ghost function CalledAll(a: Adapter, calls: seq<(Call, Option<Errno>)>): Adapter
  {
    if calls == [] then a
    else
      var last := calls[|calls| - 1];
      Called(CalledAll(a, calls[..|calls| - 1]), last.0, last.1).0
  }

  ghost predicate TrackedCalls(a: Adapter, calls: seq<(Call, Option<Errno>)>)
  {
    calls == [] ||
    var (before, last) := (calls[..|calls| - 1], calls[|calls| - 1]);
    TrackedCalls(a, before) && Tracked(CalledAll(a, before), last.0, last.1)
  }

  /**
   * Over a filesystem with any content, after any sequence of calls without an untracked rename, the index is exact,
   * and every node with a place in the hierarchy has a path the wrapped filesystem resolves to the object the
   * node stands for.
   */
  lemma {:induction false} EveryPathResolves(tree: Tree, calls: seq<(Call, Option<Errno>)>)
    requires WellFormed(tree) && TrackedCalls(Over(tree), calls)
    ensures var a := CalledAll(Over(tree), calls);
            && AdapterOk(a)
            && forall id | a.Names().Attached(id) ::
                 var path := PathFor(a.Names(), id);
                 path.Some? && Resolve(a.tree, path.value) == Some(a.Standing(id))
  {
    hide AdapterOk, Called, Tracked;
    var a := CalledAll(Over(tree), calls);
    if calls == [] {
      OverIsOk(tree);
    } else {
      var last := calls[|calls| - 1];
      EveryPathResolves(tree, calls[..|calls| - 1]);
      CalledKeepsExactly(CalledAll(Over(tree), calls[..|calls| - 1]), last.0, last.1);
    }
    forall id | a.Names().Attached(id)
      ensures PathFor(a.Names(), id).Some? && Resolve(a.tree, PathFor(a.Names(), id).value) == Some(a.Standing(id))
    {
      PathsResolve(a, id);
    }
  }

  // ---------- an untracked rename ----------

  const TWO_FILES: Tree := map[TOP := Directory(map[[97] := 3, [98] := 2]), 2 := Leaf, 3 := Leaf]

  lemma TwoFilesAreATree()
    ensures WellFormed(TWO_FILES)
  {
    assert Ranked(TWO_FILES, map[TOP := 0, 2 := 0, 3 := 0]);
  }

  lemma CalledOnceMore(a: Adapter, calls: seq<(Call, Option<Errno>)>, last: (Call, Option<Errno>))
    ensures CalledAll(a, []) == a
    ensures CalledAll(a, calls + [last]) == Called(CalledAll(a, calls), last.0, last.1).0
  {
    hide Called;
    assert (calls + [last])[..|calls|] == calls;
  }

  const SEE_ONE: (Call, Option<Errno>) := (CallLookup(ROOT, [98]), None)
  const MOVE_THE_OTHER: (Call, Option<Errno>) := (CallRename(ROOT, [97], ROOT, [98], 0), None)

  /**
   * One name of two is looked up, and the other one renamed over it: its node then stands for an object that is gone.
   */
  lemma UnboundSourceBreaksTheIndex()
    ensures WellFormed(TWO_FILES)
    ensures AdapterOk(CalledAll(Over(TWO_FILES), [SEE_ONE]))
    ensures var a := CalledAll(Over(TWO_FILES), [SEE_ONE, MOVE_THE_OTHER]);
            && !AdapterOk(a)
            && a.Names().Attached(2) && PathFor(a.Names(), 2) == Some([[98]])
            && Resolve(a.tree, [[98]]) == Some(3) && a.Standing(2) == 2
  {
    hide AdapterOk, WellFormed;
    TwoFilesAreATree();
    OverIsOk(TWO_FILES);
    var a := Called(Over(TWO_FILES), SEE_ONE.0, SEE_ONE.1).0;
    CalledOnceMore(Over(TWO_FILES), [], SEE_ONE);
    assert [] + [SEE_ONE] == [SEE_ONE];
    CalledOnceMore(Over(TWO_FILES), [SEE_ONE], MOVE_THE_OTHER);
    assert [SEE_ONE] + [MOVE_THE_OTHER] == [SEE_ONE, MOVE_THE_OTHER];
    PathForIs(FIRST_NAMES, ROOT, []);
    PathForIs(a.Names(), ROOT, []);
    CalledKeepsExactly(Over(TWO_FILES), SEE_ONE.0, None);
    assert Rename(TWO_FILES, TOP, [97], TOP, [98]).Ok?;
    CalledKeepsExactly(a, MOVE_THE_OTHER.0, None);
    var moved := Called(a, MOVE_THE_OTHER.0, MOVE_THE_OTHER.1).0;
    OneAlias(moved.Names(), 2, Dentry(ROOT, [98]));
    ResolveOne(moved.tree, [98]);
  }

  lemma ResolveOne(t: Tree, n: Name)
    ensures Resolve(t, [n]) == Child(t, TOP, n)
  {
    var path: Path := [n];
    assert path[..|path| - 1] == [];
    assert Walk(t, TOP, path[..|path| - 1]) == Some(TOP);
  }

  lemma OneAlias(ns: Names, id: nat, d: Dentry)
    requires id != ROOT && id in ns.aliases && ns.aliases[id] == {d} && d.parent == ROOT
    ensures PathFor(ns, id) == Some([d.name])
  {
    assert [d.name][..0] == [];
    assert FirstAlias({d}) == d;
    PathForIs(ns, id, [d.name]);
  }
}
