/**
 * What every call of the path adapter answers and does, in terms of the objects its nodes stand for: no path, and no
 * detour of the adapter over paths, appears in these statements.
 */
module AdapterAnswers {
  import opened Base
  import opened Nodes
  import opened PosixTree
  import opened PathNamespace
  import opened Enumeration
  import opened PathAdapter

  /** The path of a node is there exactly while the node is attached, and stands for an object that has a name. */
  lemma AttachedMeans(a: Adapter, id: nat)
    requires AdapterOk(a)
    ensures PathFor(a.Names(), id).Some? <==> a.Names().Attached(id)
    ensures a.Names().Attached(id) ==>
              && At(a.tree, PathFor(a.Names(), id).value) == Ok(a.Standing(id))
              && a.Standing(id) in a.tree && Linked(a.tree, a.Standing(id))
  {
    hide Exact, IndexOk, PathFor, Resolve, Acyclic, DirsNamedOnce;
    if PathFor(a.Names(), id).Some? { OnlyAttachedHavePaths(a.Names(), id); }
    if a.Names().Attached(id) {
      PathsResolve(a, id);
      PathMeans(a, id);
      StandsForSomething(a, id);
    }
  }

  lemma StandsForSomething(a: Adapter, id: nat)
    requires AdapterOk(a) && a.Names().Attached(id)
    ensures a.Standing(id) in a.tree && Linked(a.tree, a.Standing(id))
  {
    hide Exact, IndexOk, Acyclic, DirsNamedOnce;
    AttachedStands(a, id);
    if id != ROOT {
      AttachedIsNamed(a, id);
      var d :| d in a.x.names.aliases[id];
      assert DentryOk(a, d);
      var p := a.stands[d.parent];
      assert Child(a.tree, p, d.name) == Some(a.stands[id]);
      assert (p, d.name) in Namings(a.tree, a.stands[id]);
    }
  }

  lemma AttachedIsNamed(a: Adapter, id: nat)
    requires AdapterOk(a) && a.Names().Attached(id) && id != ROOT
    ensures id in a.x.names.aliases && a.x.names.aliases[id] != {}
  {}

  // ---------- the node of a name ----------

  /** `id` is the node of the name `d`: attached, bound to it, and standing for the object it leads to. */
  ghost predicate IsNodeOf(a: Adapter, d: Dentry, id: nat)
  {
    && d in a.x.names.byName && a.x.names.byName[d] == id && a.Names().Attached(id)
    && Child(a.tree, a.Standing(d.parent), d.name) == Some(a.Standing(id))
  }

  /** All nodes keep their names, their objects and their slots; at most `d` is bound anew, to a node of its own. */
  ghost predicate OnlyBinds(a: Adapter, a': Adapter, d: Dentry, id: nat)
  {
    && a'.x.names.byName == a.x.names.byName[d := id]
    && (forall i | a.Names().Attached(i) :: a'.Names().Attached(i) && a'.Standing(i) == a.Standing(i))
    && (forall i | i in a.x.table.slots :: i in a'.x.table.slots && a'.x.table.slots[i] == a.x.table.slots[i])
    && (if d in a.x.names.byName then a' == a.(tree := a'.tree)
        else
          && id !in a.x.table.slots && !a.Names().Attached(id)
          && a'.x.table.slots.Keys == a.x.table.slots.Keys + {id}
          && a'.x.table.slots[id].parent == d.parent && a'.x.table.slots[id].links == 1
          && a'.x.table.slots[id].lookups == a'.x.table.slots[id].opens == a'.x.table.slots[id].leases == 0)
  }

  lemma AddedNames(a: Adapter, parent: nat, name: Name)
    requires AdapterOk(a) && a.Names().Attached(parent) && Child(a.tree, a.Standing(parent), name).Some?
    ensures var (a', id) := NodeAdded(a, parent, name);
            && AdapterOk(a') && a'.tree == a.tree && IsNodeOf(a', Dentry(parent, name), id)
            && OnlyBinds(a, a', Dentry(parent, name), id)
  {
    hide AdapterOk, OnlyBinds, Inserted;
    var d := Dentry(parent, name);
    var (a', id) := NodeAdded(a, parent, name);
    NodeAddedKeeps(a, parent, name);
    IndexIsOk(a);
    InsertedKeeps(a.x, d);
    InsertedIsNew(a.x, d);
    BoundIsAttached(a', d);
    AddedBinds(a, parent, name);
  }

  lemma AddedBinds(a: Adapter, parent: nat, name: Name)
    requires AdapterOk(a) && a.Names().Attached(parent) && Child(a.tree, a.Standing(parent), name).Some?
    ensures var (a', id) := NodeAdded(a, parent, name); OnlyBinds(a, a', Dentry(parent, name), id)
  {
    hide AdapterOk, Inserted, IndexOk;
    var d := Dentry(parent, name);
    IndexIsOk(a);
    InsertedKeeps(a.x, d);
    InsertedIsNew(a.x, d);
    assert d in a.x.names.byName ==> a.x.names.byName[d := a.x.names.byName[d]] == a.x.names.byName;
  }

  lemma IndexIsOk(a: Adapter)
    requires AdapterOk(a)
    ensures IndexOk(a.x)
  {}

  // ---------- lookup and create ----------

  /**
   * A lookup answers with the node of the name exactly if its parent is an attached directory that has the name and
   * the wrapped filesystem does not refuse: the node bound already, and otherwise a new one that stands for the
   * object the name leads to. A name that is not there is answered as absent and everything else as its error, and
   * then nothing changes.
   */
  lemma LookupAnswers(a: Adapter, parent: nat, name: Name, deny: Option<Errno>)
    requires AdapterOk(a)
    ensures var (a', r) := Called(a, CallLookup(parent, name), deny);
            var p := a.Standing(parent);
            && a'.tree == a.tree
            && (if !a.Names().Attached(parent) then r == Err(ENOENT) && a' == a
                else if deny.Some? then r == Err(deny.value) && a' == a
                else if !IsDir(a.tree, p) then r == Err(ENOTDIR) && a' == a
                else if Child(a.tree, p, name).None? then r == Ok(None) && a' == a
                else
                  && r.Ok? && r.value.Some?
                  && IsNodeOf(a', Dentry(parent, name), r.value.value)
                  && a'.Standing(r.value.value) == Child(a.tree, p, name).value
                  && OnlyBinds(a, a', Dentry(parent, name), r.value.value))
  {
    hide AdapterOk, NodeAdded, OnlyBinds, PathFor, Resolve;
    AttachedMeans(a, parent);
    if a.Names().Attached(parent) && Child(a.tree, a.Standing(parent), name).Some? {
      AddedNames(a, parent, name);
      assert OnlyBinds(a, NodeAdded(a, parent, name).0, Dentry(parent, name), NodeAdded(a, parent, name).1);
      BindingKeepsParent(a, parent, name);
    }
  }

  lemma BindingKeepsParent(a: Adapter, parent: nat, name: Name)
    requires a.Names().Attached(parent)
    requires OnlyBinds(a, NodeAdded(a, parent, name).0, Dentry(parent, name), NodeAdded(a, parent, name).1)
    ensures NodeAdded(a, parent, name).0.Standing(parent) == a.Standing(parent)
  {}

  /** The tree gains one object of the kind asked for, under one name, and is otherwise the same. */
  ghost predicate Gains(t: Tree, t': Tree, p: nat, n: Name, o: nat, directory: bool)
  {
    && o !in t && t'.Keys == t.Keys + {o} && IsDir(t', o) == directory
    && (directory ==> t'[o].children == map[])
    && (forall x | x in t :: IsDir(t', x) == IsDir(t, x))
    && (forall x, y :: Child(t', x, y) == if x == p && y == n then Some(o) else Child(t, x, y))
  }

  /**
   * mknod, mkdir, symlink and create answer with the node of the new name, which stands for the new object of the
   * kind asked for, exactly if the parent is an attached directory without that name and the wrapped filesystem does
   * not refuse (an identity in use already is its EIO); otherwise the error is the standard's and nothing changes.
   */
  lemma CreateAnswers(a: Adapter, parent: nat, name: Name, o: nat, directory: bool, deny: Option<Errno>)
    requires AdapterOk(a)
    ensures var (a', r) := Called(a, CallCreate(parent, name, o, directory), deny);
            var p := a.Standing(parent);
            if !a.Names().Attached(parent) then r == Err(ENOENT) && a' == a
            else if deny.Some? then r == Err(deny.value) && a' == a
            else if o in a.tree then r == Err(EIO) && a' == a
            else if !IsDir(a.tree, p) then r == Err(ENOTDIR) && a' == a
            else if Child(a.tree, p, name).Some? then r == Err(EEXIST) && a' == a
            else
              && r.Ok? && r.value.Some? && Gains(a.tree, a'.tree, p, name, o, directory)
              && IsNodeOf(a', Dentry(parent, name), r.value.value) && a'.Standing(r.value.value) == o
              && OnlyBinds(a, a', Dentry(parent, name), r.value.value) && Dentry(parent, name) !in a.x.names.byName
  {
    hide AdapterOk, NodeAdded, OnlyBinds, PathFor, Resolve, Gains, Linked, Made;
    var (p, d) := (a.Standing(parent), Dentry(parent, name));
    AttachedMeans(a, parent);
    if Called(a, CallCreate(parent, name, o, directory), deny).1.Ok? {
      var a1 := a.(tree := Made(a.tree, p, name, o, directory));
      MadeGains(a.tree, p, name, o, directory);
      CreatedTreeRefines(a, p, name, o, directory);
      GainedChild(a.tree, a1.tree, p, name, o, directory);
      AddedNames(a1, parent, name);
      UnboundBefore(a, parent, name);
      OnlyBindsAfter(a, a1, NodeAdded(a1, parent, name).0, d, NodeAdded(a1, parent, name).1);
    }
  }

  lemma MadeGains(t: Tree, p: nat, n: Name, o: nat, directory: bool)
    requires o !in t && IsDir(t, p) && Child(t, p, n).None?
    ensures Gains(t, Made(t, p, n, o, directory), p, n, o, directory)
  {}

  lemma GainedChild(t: Tree, t': Tree, p: nat, n: Name, o: nat, directory: bool)
    requires Gains(t, t', p, n, o, directory)
    ensures Child(t', p, n) == Some(o)
  {}

  lemma UnboundBefore(a: Adapter, parent: nat, name: Name)
    requires AdapterOk(a) && Child(a.tree, a.Standing(parent), name).None?
    ensures Dentry(parent, name) !in a.x.names.byName
  {
    hide AdapterOk;
    if Dentry(parent, name) in a.x.names.byName { BoundIsAttached(a, Dentry(parent, name)); }
  }

  lemma OnlyBindsAfter(a: Adapter, a1: Adapter, a': Adapter, d: Dentry, id: nat)
    requires a1 == a.(tree := a1.tree) && a'.tree == a1.tree && OnlyBinds(a1, a', d, id)
    ensures OnlyBinds(a, a', d, id)
    ensures a.Names().Attached(d.parent) ==> a'.Standing(d.parent) == a.Standing(d.parent)
  {}

  // ---------- unlink and rmdir ----------

  /** The tree loses one name and is otherwise the same. */
  ghost predicate Loses(t: Tree, t': Tree, p: nat, n: Name)
  {
    && (forall x :: IsDir(t', x) == IsDir(t, x))
    && (forall x, y :: Child(t', x, y) == if x == p && y == n then None else Child(t, x, y))
  }

  /** What taking a link makes of a slot: without links, lookups, opens and leases the node is reclaimed. */
  ghost predicate LosesLink(slot: Slot<PathNode>, t': Table<PathNode>, id: nat)
  {
    if slot.links > 1 || slot.lookups + slot.opens + slot.leases > 0 then
      id in t'.slots && t'.slots[id] == slot.(links := SaturatingSub(slot.links, 1))
    else id !in t'.slots
  }

  /** The node a name is bound to loses a link, and every other node is as it was. */
  ghost predicate TakesLink(x: Index, t': Table<PathNode>, d: Dentry)
  {
    forall i | i in x.table.slots ::
      if d in x.names.byName && x.names.byName[d] == i then LosesLink(x.table.slots[i], t', i)
      else i in t'.slots && t'.slots[i] == x.table.slots[i]
  }

  /** The index loses one name, and its node a link. */
  ghost predicate Unbinds(a: Adapter, a': Adapter, d: Dentry)
  {
    a'.x.names.byName == a.x.names.byName - {d} && a'.stands == a.stands && TakesLink(a.x, a'.x.table, d)
  }

  /**
   * Unlink removes a name exactly if its parent is an attached directory in which it leads to a non-directory, rmdir
   * exactly if it leads to an empty directory, and the wrapped filesystem does not refuse; otherwise the error is the
   * standard's and nothing changes. The name is then gone from the tree and from the index, and no other is.
   */
  lemma RemoveAnswers(a: Adapter, parent: nat, name: Name, directory: bool, deny: Option<Errno>)
    requires AdapterOk(a)
    ensures var (a', r) := Called(a, CallRemove(parent, name, directory), deny);
            var p := a.Standing(parent);
            var found := Child(a.tree, p, name);
            if !a.Names().Attached(parent) then r == Err(ENOENT) && a' == a
            else if deny.Some? then r == Err(deny.value) && a' == a
            else if !IsDir(a.tree, p) then r == Err(ENOTDIR) && a' == a
            else if found.None? then r == Err(ENOENT) && a' == a
            else if !directory && IsDir(a.tree, found.value) then r == Err(EPERM) && a' == a
            else if directory && !IsDir(a.tree, found.value) then r == Err(ENOTDIR) && a' == a
            else if directory && a.tree[found.value].children != map[] then r == Err(ENOTEMPTY) && a' == a
            else
              && r == Ok(None) && AdapterOk(a')
              && Loses(a.tree, a'.tree, p, name) && Unbinds(a, a', Dentry(parent, name))
  {
    hide AdapterOk, NameRemoved, Unbinds, Loses, PathFor, Resolve, Unbind, Linked;
    AttachedMeans(a, parent);
    if Called(a, CallRemove(parent, name, directory), deny).1.Ok? {
      RemovalRefines(a, parent, name);
      UnbindLoses(a.tree, a.Standing(parent), name);
      RemovalUnbinds(a, Dentry(parent, name), Unbind(a.tree, a.Standing(parent), name));
    }
  }

  lemma UnbindLoses(t: Tree, p: nat, n: Name)
    ensures Loses(t, Unbind(t, p, n), p, n)
  {}

  lemma RemovalUnbinds(a: Adapter, d: Dentry, t': Tree)
    requires AdapterOk(a)
    ensures Unbinds(a, a.(tree := t', x := NameRemoved(a.x, d)), d)
  {
    hide AdapterOk, NameRemoved, TakesLink;
    IndexIsOk(a);
    IndexIsInverse(a.x);
    RemovedBindings(a.x, d);
    RemovalTakesLink(a.x, d);
  }

  lemma RemovalTakesLink(x: Index, d: Dentry)
    requires IndexOk(x)
    ensures TakesLink(x, NameRemoved(x, d).table, d)
  {
    hide IndexOk, Inverse;
    IndexIsBound(x);
    LiveAreUsed(x);
  }

  // ---------- rename ----------

  /** The source's node takes the destination's name and parent; whatever node had that name loses it. */
  ghost predicate Rebinds(a: Adapter, a': Adapter, from: Dentry, to: Dentry)
  {
    && a'.stands == a.stands
    && (if from !in a.x.names.byName
           || (to in a.x.names.byName && a.x.names.byName[to] == a.x.names.byName[from]) then a'.x == a.x
        else
          var source := a.x.names.byName[from];
          && a'.x.names.byName == (a.x.names.byName - {from})[to := source]
          && forall i | i in a.x.table.slots :: Resettles(a, a'.x.table, source, to, i))
  }

  ghost predicate Resettles(a: Adapter, t': Table<PathNode>, source: nat, to: Dentry, i: nat)
    requires i in a.x.table.slots
  {
    if i == source then i in t'.slots && t'.slots[i] == a.x.table.slots[i].(parent := to.parent)
    else if to in a.x.names.byName && a.x.names.byName[to] == i then LosesLink(a.x.table.slots[i], t', i)
    else i in t'.slots && t'.slots[i] == a.x.table.slots[i]
  }

  /** The tree is left alone if both names lead to one object; else the object has the new name instead of the old. */
  ghost predicate Relocates(t: Tree, t': Tree, p: nat, n: Name, q: nat, m: Name)
  {
    if Child(t, q, m) == Child(t, p, n) then t' == t
    else
      && (forall x :: IsDir(t', x) == IsDir(t, x))
      && (forall x, y :: Child(t', x, y) == if x == q && y == m then Child(t, p, n)
                                            else if x == p && y == n then None else Child(t, x, y))
  }

  /**
   * A rename takes place exactly if no flag is set, both parents are attached, the wrapped filesystem does not refuse,
   * and the standard's conditions hold of the objects the nodes stand for; otherwise the error is the standard's and
   * nothing changes.
   */
  lemma RenameAnswers(
    a: Adapter, parent: nat, name: Name, newparent: nat, newname: Name, flags: nat, deny: Option<Errno>)
    requires AdapterOk(a)
    ensures var (a', r) := Called(a, CallRename(parent, name, newparent, newname, flags), deny);
            var (p, q) := (a.Standing(parent), a.Standing(newparent));
            var (found, taken) := (Child(a.tree, p, name), Child(a.tree, q, newname));
            if flags != 0 then r == Err(EOPNOTSUPP) && a' == a
            else if !a.Names().Attached(parent) || !a.Names().Attached(newparent) then r == Err(ENOENT) && a' == a
            else if deny.Some? then r == Err(deny.value) && a' == a
            else if !IsDir(a.tree, p) then r == Err(ENOTDIR) && a' == a
            else if found.None? then r == Err(ENOENT) && a' == a
            else if taken != found && !IsDir(a.tree, q) then r == Err(ENOTDIR) && a' == a
            else if taken != found && IsDir(a.tree, found.value) && Beneath(a.tree, found.value, q) then
              r == Err(EINVAL) && a' == a
            else if taken != found && taken.Some? && IsDir(a.tree, taken.value) && !IsDir(a.tree, found.value) then
              r == Err(EISDIR) && a' == a
            else if taken != found && taken.Some? && IsDir(a.tree, taken.value)
                    && a.tree[taken.value].children != map[] then r == Err(ENOTEMPTY) && a' == a
            else if taken != found && taken.Some? && !IsDir(a.tree, taken.value) && IsDir(a.tree, found.value) then
              r == Err(ENOTDIR) && a' == a
            else
              && r == Ok(None) && Relocates(a.tree, a'.tree, p, name, q, newname)
              && Rebinds(a, a', Dentry(parent, name), Dentry(newparent, newname))
  {
    hide AdapterOk, NameMoved, Rebinds, Relocates, PathFor, Resolve, Move, Linked, Beneath;
    AttachedMeans(a, parent);
    AttachedMeans(a, newparent);
    var (a', r) := Called(a, CallRename(parent, name, newparent, newname, flags), deny);
    if r.Ok? {
      TreeIsWellFormed(a);
      RenameRelocates(a.tree, a'.tree, a.Standing(parent), name, a.Standing(newparent), newname);
      MoveRebinds(a, Dentry(parent, name), Dentry(newparent, newname), a'.tree);
    }
  }

  lemma TreeIsWellFormed(a: Adapter)
    requires AdapterOk(a)
    ensures WellFormed(a.tree)
  {}

  lemma RenameRelocates(t: Tree, t': Tree, p: nat, n: Name, q: nat, m: Name)
    requires WellFormed(t) && Rename(t, p, n, q, m) == Ok(t')
    ensures Relocates(t, t', p, n, q, m)
  {
    hide Rename, WellFormed;
    assert Renamed(t, t', p, n, q, m);
    RenamedChildren(t, t', p, n, q, m);
  }

  lemma MoveRebinds(a: Adapter, from: Dentry, to: Dentry, t': Tree)
    requires AdapterOk(a)
    ensures Rebinds(a, a.(tree := t', x := NameMoved(a.x, from, to)), from, to)
  {
    hide AdapterOk, NameMoved, Resettles;
    IndexIsOk(a);
    if from in a.x.names.byName && !(to in a.x.names.byName && a.x.names.byName[to] == a.x.names.byName[from]) {
      IndexIsInverse(a.x);
      MovedBindings(a.x, from, to);
      MovedSlots(a, from, to);
    } else {
      NothingMoves(a.x, from, to);
    }
  }

  lemma NothingMoves(x: Index, from: Dentry, to: Dentry)
    requires from !in x.names.byName || (to in x.names.byName && x.names.byName[to] == x.names.byName[from])
    ensures NameMoved(x, from, to) == x
  {}

  lemma MovedSlots(a: Adapter, from: Dentry, to: Dentry)
    requires IndexOk(a.x) && from in a.x.names.byName
    requires to in a.x.names.byName ==> a.x.names.byName[to] != a.x.names.byName[from]
    ensures forall i | i in a.x.table.slots ::
              Resettles(a, NameMoved(a.x, from, to).table, a.x.names.byName[from], to, i)
  {
    hide IndexOk, Inverse, NameRemoved, Removed, Aliased, LosesLink;
    RemovalTakesLink(a.x, to);
    IndexIsBound(a.x);
    forall i | i in a.x.table.slots
      ensures Resettles(a, NameMoved(a.x, from, to).table, a.x.names.byName[from], to, i)
    {
      LosesLinkStays(a.x, NameRemoved(a.x, to).table, a.x.names.byName[from], to, i);
    }
  }

  lemma LosesLinkStays(x: Index, t: Table<PathNode>, source: nat, to: Dentry, i: nat)
    requires i in x.table.slots
    ensures i != source && LosesLink(x.table.slots[i], t, i) ==>
              LosesLink(x.table.slots[i], Reparent(t, source, to.parent), i)
  {}

  // ---------- link ----------

  /** The index gains one more name of a node there is. */
  ghost predicate Aliases(a: Adapter, a': Adapter, id: nat, d: Dentry)
  {
    && a'.stands == a.stands && a'.x.names.byName == a.x.names.byName[d := id] && d !in a.x.names.byName
    && id in a.x.table.slots
    && a'.x.table.slots == a.x.table.slots[id := a.x.table.slots[id].(links := a.x.table.slots[id].links + 1)]
  }

  /**
   * A link answers with the source's own node exactly if that and the new parent are attached, the source stands for a
   * non-directory, the parent is a directory without the new name, and the wrapped filesystem does not refuse; the
   * name then leads to the source's object. Otherwise the error is the standard's and nothing changes.
   */
  lemma LinkAnswers(a: Adapter, id: nat, newparent: nat, newname: Name, deny: Option<Errno>)
    requires AdapterOk(a)
    ensures var (a', r) := Called(a, CallLink(id, newparent, newname), deny);
            var (o, q) := (a.Standing(id), a.Standing(newparent));
            if !a.Names().Attached(id) || !a.Names().Attached(newparent) then r == Err(ENOENT) && a' == a
            else if deny.Some? then r == Err(deny.value) && a' == a
            else if IsDir(a.tree, o) then r == Err(EPERM) && a' == a
            else if !IsDir(a.tree, q) then r == Err(ENOTDIR) && a' == a
            else if Child(a.tree, q, newname).Some? then r == Err(EEXIST) && a' == a
            else
              && r == Ok(Some(id)) && IsNodeOf(a', Dentry(newparent, newname), id)
              && Aliases(a, a', id, Dentry(newparent, newname))
              && (forall x :: IsDir(a'.tree, x) == IsDir(a.tree, x))
              && forall x, y :: Child(a'.tree, x, y) == if x == q && y == newname then Some(o) else Child(a.tree, x, y)
  {
    hide AdapterOk, NameLinked, Aliases, PathFor, Resolve, Bind, Linked, IsNodeOf;
    AttachedMeans(a, id);
    AttachedMeans(a, newparent);
    var (a', r) := Called(a, CallLink(id, newparent, newname), deny);
    if r.Ok? {
      BindChild(a.tree, a.Standing(newparent), newname, a.Standing(id));
      UnboundBefore(a, newparent, newname);
      LinkAliases(a, id, newparent, newname, a'.tree);
    }
  }

  lemma LinkAliases(a: Adapter, id: nat, newparent: nat, newname: Name, t': Tree)
    requires AdapterOk(a) && a.Names().Attached(id) && a.Names().Attached(newparent)
    requires Dentry(newparent, newname) !in a.x.names.byName
    requires Child(t', a.Standing(newparent), newname) == Some(a.Standing(id))
    ensures var d := Dentry(newparent, newname);
            var a' := a.(tree := t', x := NameLinked(a.x, id, d));
            Aliases(a, a', id, d) && IsNodeOf(a', d, id)
  {
    hide Refines, Exact, Inverse;
    AttachedStands(a, id);
  }

  // ---------- listings ----------

  /** The listing shows the name: the directory has it, and the reply buffer takes an entry of it. */
  ghost predicate Shows(a: Adapter, dir: nat, list: seq<Entry>, d: Dentry)
  {
    && d.parent == dir && d.name != DOT && d.name != DOTDOT && Child(a.tree, a.Standing(dir), d.name).Some?
    && Entry(d.name, true) in list
  }

  /** A slot gains lookups at most, and none in a plain listing. */
  ghost predicate OnlyLookedUp(slot: Slot<PathNode>, slot': Slot<PathNode>, plus: bool)
  {
    slot' == slot.(lookups := slot'.lookups) && slot'.lookups >= slot.lookups && (!plus ==> slot' == slot)
  }

  /** Exactly the names shown become bound, each to a new node; every node there was keeps its name and its object. */
  ghost predicate Lists(a: Adapter, a': Adapter, dir: nat, plus: bool, list: seq<Entry>)
  {
    && a'.tree == a.tree
    && (forall d :: d in a'.x.names.byName <==> d in a.x.names.byName || Shows(a, dir, list, d))
    && (forall d | d in a.x.names.byName :: a'.x.names.byName[d] == a.x.names.byName[d])
    && (forall d | d in a'.x.names.byName && d !in a.x.names.byName ::
          && a'.x.names.byName[d] !in a.x.table.slots && a'.x.names.byName[d] in a'.x.table.slots
          && (!plus ==> a'.x.table.slots[a'.x.names.byName[d]].lookups == 0))
    && (forall i | a.Names().Attached(i) :: a'.Names().Attached(i) && a'.Standing(i) == a.Standing(i))
    && (forall i | i in a.x.table.slots ::
          i in a'.x.table.slots && OnlyLookedUp(a.x.table.slots[i], a'.x.table.slots[i], plus))
  }

  /** One emission, seen from the index: taken, the name is bound; not taken, an unbound name stays unbound. */
  lemma EmissionBinds(x: Index, dir: nat, plus: bool, e: Entry)
    requires IndexOk(x) && !e.Dots()
    ensures var (x', d) := (Emit(Sink(x, [], []), dir, plus, e).x, Dentry(dir, e.name));
            var (x1, id, added) := Inserted(x, d);
            if e.fits then
              && x'.names == x1.names && id in x1.table.slots
              && x'.table.slots == (if plus then Retain(x1.table, id).slots else x1.table.slots)
            else
              x'.names.byName == x.names.byName && x'.names.aliases == x.names.aliases
              && x'.table.slots == x.table.slots
  {
    hide IndexOk, Inserted, Extends, NameRemoved;
    var d := Dentry(dir, e.name);
    var s := Emit(Sink(x, [], []), dir, plus, e);
    InsertedKeeps(x, d);
    InsertedIsNew(x, d);
    IndexIsBound(Inserted(x, d).0);
    StartExtends(x);
    EmitExtends(x, Sink(x, [], []), dir, plus, e);
    if !e.fits && d !in x.names.byName {
      NothingLeftOver(x, s);
    }
  }

  lemma EntryLists(a: Adapter, dir: nat, plus: bool, e: Entry)
    requires AdapterOk(a) && a.Names().Attached(dir)
    ensures Lists(a, Listed(a, dir, plus, e), dir, plus, [e])
  {
    hide AdapterOk, IndexOk, Inserted, Emit;
    if !e.Dots() && Child(a.tree, a.Standing(dir), e.name).Some? {
      var d := Dentry(dir, e.name);
      IndexIsOk(a);
      EmissionBinds(a.x, dir, plus, e);
      InsertedKeeps(a.x, d);
      InsertedIsNew(a.x, d);
    }
  }

  lemma ListsCompose(a: Adapter, mid: Adapter, a': Adapter, dir: nat, plus: bool, front: seq<Entry>, e: Entry)
    requires Lists(a, mid, dir, plus, front) && Lists(mid, a', dir, plus, [e])
    requires mid.Standing(dir) == a.Standing(dir)
    ensures Lists(a, a', dir, plus, front + [e])
  {}

  lemma {:induction false} EveryEntryLists(a: Adapter, dir: nat, plus: bool, list: seq<Entry>)
    requires AdapterOk(a) && a.Names().Attached(dir)
    ensures Lists(a, ListedAll(a, dir, plus, list), dir, plus, list)
  {
    hide AdapterOk, Lists, Listed;
    if list == [] {
      NothingLists(a, dir, plus);
    } else {
      var (front, last) := (list[..|list| - 1], list[|list| - 1]);
      var mid := ListedAll(a, dir, plus, front);
      EveryEntryLists(a, dir, plus, front);
      ListedAllKeeps(a, dir, plus, front);
      EntryLists(mid, dir, plus, last);
      ListsCompose(a, mid, ListedAll(a, dir, plus, list), dir, plus, front, last);
      assert front + [last] == list;
    }
  }

  lemma NothingLists(a: Adapter, dir: nat, plus: bool)
    ensures Lists(a, a, dir, plus, [])
  {}

  /**
   * A listing of an attached directory that its callback completes binds exactly the names shown, to nodes that stand
   * for what they lead to, and moves no other name; one that fails, or of a node without a path, binds nothing.
   */
  lemma ListAnswers(a: Adapter, dir: nat, plus: bool, list: seq<Entry>, deny: Option<Errno>)
    requires AdapterOk(a)
    ensures var (a', r) := Called(a, CallList(dir, plus, list), deny);
            if !a.Names().Attached(dir) then r == Err(ENOENT) && a' == a
            else if deny.Some? then
              && r == Err(deny.value) && a'.tree == a.tree && a'.stands == a.stands
              && a'.x.names.byName == a.x.names.byName && a'.x.names.aliases == a.x.names.aliases
              && a'.x.table.slots == a.x.table.slots
            else
              && r == Ok(None) && Lists(a, a', dir, plus, list)
              && forall d | d in a'.x.names.byName :: IsNodeOf(a', d, a'.x.names.byName[d])
  {
    hide AdapterOk, Lists, PathFor, EmitAll, Forgotten, RolledBack;
    AttachedMeans(a, dir);
    ListEntriesKeeps(a, dir, plus, list, deny);
    var (a', r) := Called(a, CallList(dir, plus, list), deny);
    if a.Names().Attached(dir) && deny.None? {
      EveryEntryLists(a, dir, plus, list);
      forall d | d in a'.x.names.byName ensures IsNodeOf(a', d, a'.x.names.byName[d]) {
        BoundIsAttached(a', d);
      }
    }
  }

  // ---------- counting ----------

  /** A counting step of the runtime does to the node table what it does there, and nothing to names or objects. */
  lemma CountingAnswers(a: Adapter, op: Op<PathNode>, deny: Option<Errno>)
    requires AdapterOk(a) && OnlyCounts(op)
    ensures var (a', r) := Called(a, Counting(op), deny);
            && r == Ok(None) && AdapterOk(a') && a'.tree == a.tree && a'.stands == a.stands && a'.x.names == a.x.names
            && a'.x.table == Apply(a.x.table, op)
            && forall id | a.Names().Attached(id) :: id in a'.x.table.slots
  {
    hide AdapterOk, Apply;
    CountingRefines(a, op);
    var a' := Called(a, Counting(op), deny).0;
    forall id | a.Names().Attached(id) ensures id in a'.x.table.slots { AttachedStands(a', id); }
  }

  // ---------- paths that lead nowhere ----------

  /** The path the adapter spells for a node leads to nothing: only an untracked rename can bring that about. */
  ghost predicate Astray(a: Adapter, id: nat)
  {
    PathFor(a.Names(), id).Some? && Resolve(a.tree, PathFor(a.Names(), id).value).None?
  }

  /** Whatever the index has come to, a call whose first path leads nowhere is ENOENT and changes nothing. */
  lemma AstrayIsMissing(a: Adapter, id: nat, c: Call)
    requires Astray(a, id)
    requires match c
             case CallLookup(parent, _) => parent == id
             case CallCreate(parent, _, _, _) => parent == id
             case CallRemove(parent, _, _) => parent == id
             case CallRename(parent, _, newparent, _, flags) =>
               parent == id && flags == 0 && PathFor(a.Names(), newparent).Some?
             case CallLink(source, newparent, _) => source == id && PathFor(a.Names(), newparent).Some?
             case _ => false
    ensures Called(a, c, None) == (a, Err(ENOENT))
  {
    hide PathFor, Resolve, Rename, Link, NodeAdded, NameMoved, NameLinked, NameRemoved;
  }

  lemma NothingGoesAstray(a: Adapter, id: nat)
    requires AdapterOk(a)
    ensures !Astray(a, id)
  {
    hide AdapterOk, PathFor, Resolve;
    AttachedMeans(a, id);
  }
}
