/** typed_fuse_core/src/path_fs.rs: moving a directory moves every path through it, and rewrites no entry below it. */
module PathMoves {
  import opened Base
  import opened Nodes
  import opened PosixTree
  import opened PathNamespace
  import opened PathAdapter

  lemma {:induction false} WalkSplits(t: Tree, from: nat, front: Path, rest: Path)
    requires Walk(t, from, front).Some?
    ensures Walk(t, from, front + rest) == Walk(t, Walk(t, from, front).value, rest)
  {
    if rest == [] {
      assert front + rest == front;
    } else {
      assert (front + rest)[..|front + rest| - 1] == front + rest[..|rest| - 1];
      WalkSplits(t, from, front, rest[..|rest| - 1]);
    }
  }

  /**
   * `source` changes its first alias and `gone`, no node's parent, may change its own; every other node keeps its
   * aliases.
   */
  ghost predicate AliasesKept(ns: Names, ns': Names, source: nat, gone: Option<nat>)
  {
    && gone != Some(ROOT)
    && (forall id | id in ns.aliases && id != source && gone != Some(id) ::
          id in ns'.aliases && ns'.aliases[id] == ns.aliases[id])
    && (forall id | id in ns.aliases && ns.aliases[id] != {} :: gone != Some(FirstAlias(ns.aliases[id]).parent))
  }

  lemma KeptAlias(ns: Names, ns': Names, source: nat, gone: Option<nat>, id: nat)
    requires AliasesKept(ns, ns', source, gone) && gone != Some(id) && id != source
    ensures gone != Some(ROOT)
    ensures id in ns.aliases ==> id in ns'.aliases && ns'.aliases[id] == ns.aliases[id]
    ensures id in ns.aliases && ns.aliases[id] != {} ==> gone != Some(FirstAlias(ns.aliases[id]).parent)
  {}

  lemma {:induction false} OutsidePathsStay(
    ns: Names, ns': Names, source: nat, gone: Option<nat>, s: Path, id: nat, path: Path)
    requires AliasesKept(ns, ns', source, gone) && gone != Some(id)
    requires IsPath(ns, source, s) && IsPath(ns, id, path) && !(s <= path)
    ensures IsPath(ns', id, path)
    decreases |path|
  {
    if id == source {
      PathIsUnique(ns, id, path, s);
    } else if id != ROOT {
      var front := path[..|path| - 1];
      assert s <= front ==> s <= path;
      OutsidePathsStay(ns, ns', source, gone, s, FirstAlias(ns.aliases[id]).parent, front);
    }
  }

  lemma {:induction false} InsidePathsMove(
    ns: Names, ns': Names, source: nat, gone: Option<nat>, s: Path, s': Path, id: nat, path: Path)
    requires AliasesKept(ns, ns', source, gone) && gone != Some(id) && source != ROOT
    requires IsPath(ns, source, s) && IsPath(ns', source, s') && IsPath(ns, id, path) && s <= path
    requires forall other | IsPath(ns, other, s) :: other == source
    ensures IsPath(ns', id, s' + path[|s|..])
    decreases |path|
  {
    hide AliasesKept, FirstAlias;
    if id == source {
      PathIsUnique(ns, id, path, s);
      assert s' + path[|s|..] == s';
    } else {
      KeptAlias(ns, ns', source, gone, id);
      var front := path[..|path| - 1];
      assert path != s;
      assert s <= front;
      InsidePathsMove(ns, ns', source, gone, s, s', FirstAlias(ns.aliases[id]).parent, front);
      var moved := s' + path[|s|..];
      assert moved[..|moved| - 1] == s' + front[|s|..];
    }
  }

  /** The directory a path names is named by no other node's path. */
  lemma PathNamesOneNode(a: Adapter, source: nat, s: Path)
    requires AdapterOk(a) && a.Names().Attached(source) && IsPath(a.Names(), source, s)
    requires IsDir(a.tree, a.Standing(source))
    ensures forall other | IsPath(a.Names(), other, s) :: other == source
  {
    hide AdapterOk;
    PathForIs(a.Names(), source, s);
    PathsResolve(a, source);
    forall other | IsPath(a.Names(), other, s) ensures other == source {
      PathForIs(a.Names(), other, s);
      PathMeans(a, other);
      var rank := SomeRank(a);
      DirectoriesStandOnce(a, rank, other, source);
    }
  }

  lemma SomeRank(a: Adapter) returns (rank: map<nat, nat>)
    requires AdapterOk(a)
    ensures Ranked(a.tree, rank)
  {
    rank :| Ranked(a.tree, rank);
  }

  lemma DirectoryHasOneAlias(a: Adapter, from: Dentry)
    requires AdapterOk(a) && a.Names().Attached(from.parent)
    requires from in a.x.names.byName && IsDir(a.tree, a.Standing(a.x.names.byName[from]))
    ensures a.x.names.byName[from] in a.x.names.aliases && a.x.names.aliases[a.x.names.byName[from]] == {from}
  {
    hide Exact, WellFormed;
    var source := a.x.names.byName[from];
    forall e | e in a.x.names.aliases[source] ensures e == from { SourceNamedOnce(a, from.parent, from.name, e); }
    assert a.x.names.aliases[source] == {from};
  }

  lemma DentriesAreOk(a: Adapter)
    requires AdapterOk(a)
    ensures IndexOk(a.x) && forall d | d in a.x.names.byName :: DentryOk(a, d)
  {}

  lemma BoundIsNotRoot(a: Adapter, d: Dentry)
    requires AdapterOk(a) && d in a.x.names.byName
    ensures a.x.names.byName[d] != ROOT && a.x.names.byName[d] in a.x.names.aliases
  {
    assert DentryOk(a, d);
  }

  lemma OthersStayBound(m: map<Dentry, nat>, from: Dentry, to: Dentry, source: nat)
    ensures (m - {from})[to := source] - {from, to} == m - {from, to}
  {}

  lemma FirstAliasIsBound(ns: Names, id: nat)
    requires Inverse(ns) && id in ns.aliases
    ensures ns.aliases[id] != {} && FirstAlias(ns.aliases[id]) in ns.byName
  {}

  /** A directory's only alias moves, and the node it replaces is the parent of nothing. */
  lemma DirectoryMoveKeepsAliases(a: Adapter, t': Tree, parent: nat, name: Name, newparent: nat, newname: Name)
    requires AdapterOk(a) && a.Names().Attached(parent) && a.Names().Attached(newparent)
    requires Renamed(a.tree, t', a.Standing(parent), name, a.Standing(newparent), newname)
    requires var from, to := Dentry(parent, name), Dentry(newparent, newname);
             && from in a.x.names.byName && IsDir(a.tree, a.Standing(a.x.names.byName[from]))
             && (to in a.x.names.byName ==> a.x.names.byName[to] != a.x.names.byName[from])
    ensures var from, to := Dentry(parent, name), Dentry(newparent, newname);
            var source, ns' := a.x.names.byName[from], NameMoved(a.x, from, to).names;
            var gone := if to in a.x.names.byName then Some(a.x.names.byName[to]) else None;
            && AliasesKept(a.x.names, ns', source, gone)
            && source in ns'.aliases && ns'.aliases[source] == {to}
            && gone != Some(newparent) && source != ROOT
            && ns'.byName - {from, to} == a.x.names.byName - {from, to}
  {
    hide AdapterOk, Rename, Renamed, NameMoved, FirstAlias, Inverse;
    var from, to := Dentry(parent, name), Dentry(newparent, newname);
    assert IndexOk(a.x) by { DentriesAreOk(a); }
    BoundIsNotRoot(a, from);
    if to in a.x.names.byName { BoundIsNotRoot(a, to); }
    DirectoryHasOneAlias(a, from);
    OthersStayBound(a.x.names.byName, from, to, a.x.names.byName[from]);
    IndexIsInverse(a.x);
    MovedBindings(a.x, from, to);
    if to in a.x.names.byName { ReplacedIsChildless(a, t', parent, name, newparent, newname); }
    forall id | id in a.x.names.aliases ensures FirstAlias(a.x.names.aliases[id]) in a.x.names.byName {
      FirstAliasIsBound(a.x.names, id);
    }
  }

  /**
   * Moving a directory changes the path of every node below it by exactly the prefix and leaves every other path alone
   * (but for a replaced node, which loses its name); no entry of the index but the two named ones changes.
   */
  lemma RenameRewritesPrefixes(
    a: Adapter, parent: nat, name: Name, newparent: nat, newname: Name, deny: Option<Errno>, id: nat)
    requires AdapterOk(a) && RenameEntry(a, parent, name, newparent, newname, 0, deny).1.Ok?
    requires var from, to := Dentry(parent, name), Dentry(newparent, newname);
             && from in a.x.names.byName && IsDir(a.tree, a.Standing(a.x.names.byName[from]))
             && (to in a.x.names.byName ==> a.x.names.byName[to] != a.x.names.byName[from])
             && a.Names().Attached(id) && (to in a.x.names.byName ==> a.x.names.byName[to] != id)
    ensures var from, to := Dentry(parent, name), Dentry(newparent, newname);
            var a' := RenameEntry(a, parent, name, newparent, newname, 0, deny).0;
            var s, target := PathFor(a.Names(), a.x.names.byName[from]), PathFor(a.Names(), newparent);
            var path := PathFor(a.Names(), id);
            && s.Some? && target.Some? && path.Some?
            && PathFor(a'.Names(), id) ==
               Some(if s.value <= path.value then target.value + [newname] + path.value[|s.value|..] else path.value)
            && a'.x.names.byName - {from, to} == a.x.names.byName - {from, to}
  {
    hide AdapterOk, NameMoved, Rename, Renamed, FirstAlias, Walk, Resolve, IsPath, AliasesKept;
    var from, to := Dentry(parent, name), Dentry(newparent, newname);
    var a' := RenameEntry(a, parent, name, newparent, newname, 0, deny).0;
    var source := a.x.names.byName[from];
    var gone := if to in a.x.names.byName then Some(a.x.names.byName[to]) else None;
    RenameIsInner(a, parent, name, newparent, newname, deny);
    BoundIsAttached(a, from);
    PathsResolve(a, source);
    PathsResolve(a, id);
    PathsResolve(a, newparent);
    DirectoryMoveKeepsAliases(a, a'.tree, parent, name, newparent, newname);
    var s, target, path := PathFor(a.Names(), source).value, PathFor(a.Names(), newparent).value,
      PathFor(a.Names(), id).value;
    NotIntoItself(a, a'.tree, parent, name, newparent, newname, s, target);
    PathNamesOneNode(a, source, s);
    PrefixesSwapped(a.Names(), a'.Names(), source, gone, s, target, to, id, path);
  }

  lemma RenameIsInner(a: Adapter, parent: nat, name: Name, newparent: nat, newname: Name, deny: Option<Errno>)
    requires AdapterOk(a) && RenameEntry(a, parent, name, newparent, newname, 0, deny).1.Ok?
    ensures var a' := RenameEntry(a, parent, name, newparent, newname, 0, deny).0;
            && a.Names().Attached(parent) && a.Names().Attached(newparent)
            && Renamed(a.tree, a'.tree, a.Standing(parent), name, a.Standing(newparent), newname)
            && a'.Names() == NameMoved(a.x, Dentry(parent, name), Dentry(newparent, newname)).names
  {
    hide AdapterOk, NameMoved, Rename, IsPath, Walk, Resolve;
    PathMeans(a, parent);
    PathMeans(a, newparent);
  }

  /** The paths through one alias, once that alias has changed and no other. */
  lemma PrefixesSwapped(
    ns: Names, ns': Names, source: nat, gone: Option<nat>, s: Path, target: Path, to: Dentry, id: nat, path: Path)
    requires AliasesKept(ns, ns', source, gone) && gone != Some(id) && gone != Some(to.parent) && source != ROOT
    requires IsPath(ns, source, s) && IsPath(ns, to.parent, target) && IsPath(ns, id, path) && !(s <= target)
    requires source in ns'.aliases && ns'.aliases[source] == {to}
    requires forall other | IsPath(ns, other, s) :: other == source
    ensures PathFor(ns', id) == Some(if s <= path then target + [to.name] + path[|s|..] else path)
  {
    hide AliasesKept, FirstAlias;
    OutsidePathsStay(ns, ns', source, gone, s, to.parent, target);
    var s' := target + [to.name];
    assert s'[..|s'| - 1] == target;
    assert IsPath(ns', source, s');
    if s <= path {
      InsidePathsMove(ns, ns', source, gone, s, s', id, path);
      PathForIs(ns', id, s' + path[|s|..]);
    } else {
      OutsidePathsStay(ns, ns', source, gone, s, id, path);
      PathForIs(ns', id, path);
    }
  }

  /**
   * The wrapped filesystem refuses to move a directory beneath itself, which is to say: to a path its own path
   * begins.
   */
  lemma NotIntoItself(
    a: Adapter, t': Tree, parent: nat, name: Name, newparent: nat, newname: Name, s: Path, target: Path)
    requires AdapterOk(a) && a.Names().Attached(parent) && a.Names().Attached(newparent)
    requires Renamed(a.tree, t', a.Standing(parent), name, a.Standing(newparent), newname)
    requires var from, to := Dentry(parent, name), Dentry(newparent, newname);
             && from in a.x.names.byName && IsDir(a.tree, a.Standing(a.x.names.byName[from]))
             && (to in a.x.names.byName ==> a.x.names.byName[to] != a.x.names.byName[from])
    requires Resolve(a.tree, s) == Some(a.Standing(a.x.names.byName[Dentry(parent, name)]))
    requires Resolve(a.tree, target) == Some(a.Standing(newparent))
    ensures !(s <= target)
  {
    hide IndexOk;
    var from, to := Dentry(parent, name), Dentry(newparent, newname);
    var o, q := a.Standing(a.x.names.byName[from]), a.Standing(newparent);
    assert DentryOk(a, from);
    if s <= target {
      assert target == s + target[|s|..];
      WalkSplits(a.tree, TOP, s, target[|s|..]);
      assert Beneath(a.tree, o, q);
      // Only the same name twice escapes the refusal.
      assert Child(a.tree, q, newname) == Some(o);
      assert q == a.Standing(parent) && newname == name;
      var rank := SomeRank(a);
      DirectoriesStandOnce(a, rank, newparent, parent);
    }
  }
}
