/**
 * typed_fuse_core/src/path_fs.rs: the dentry index of the path adapter and the link counts kept with it.
 *
 * `Index` is the value of the namespace and of the runtime's node table together; its functions are what
 * the adapter does to both once the wrapped filesystem has agreed. The classes below do the same in place.
 */
module PathNamespace {
  import opened Base
  import opened Nodes
  import opened PosixTree

  datatype Dentry = Dentry(parent: nat, name: Name)

  /** The payload of a node: its key in `Namespace.keys`. */
  datatype PathNode = PathNode(key: nat)

  datatype Names = Names(byName: map<Dentry, nat>, aliases: map<nat, set<Dentry>>, keys: map<nat, nat>, nextKey: nat)
  {
    function AliasesOf(id: nat): set<Dentry>
    {
      if id in aliases then aliases[id] else {}
    }

    /** The node has a place in the hierarchy. */
    predicate Attached(id: nat)
    {
      id == ROOT || id in aliases
    }
  }

  datatype Index = Index(names: Names, table: Table<PathNode>)

  const FIRST_NAMES := Names(map[], map[], map[1 := ROOT], 2)

  function FirstIndex(): Index
  {
    Index(FIRST_NAMES, Initial(PathNode(1)))
  }

  // ---------- paths ----------

  ghost predicate DentryLeq(d: Dentry, e: Dentry)
  {
    d.parent < e.parent || (d.parent == e.parent && NameLeq(d.name, e.name))
  }

  ghost predicate ParentIsLeast(d: Dentry, s: set<Dentry>)
  {
    d in s && forall e | e in s :: d.parent <= e.parent
  }

  lemma {:induction false} LeastParentExists(s: set<Dentry>)
    requires s != {}
    ensures exists d :: ParentIsLeast(d, s)
    decreases |s|
  {
    var x :| x in s;
    var rest := s - {x};
    assert forall e | e in s :: e == x || e in rest;
    if rest == {} {
      assert ParentIsLeast(x, s);
    } else {
      LeastParentExists(rest);
      var y :| ParentIsLeast(y, rest);
      assert ParentIsLeast(if x.parent <= y.parent then x else y, s);
    }
  }

  /** The first dentry in the iteration order of a `BTreeSet<Dentry>`: by parent, then by name. */
  ghost function FirstAlias(s: set<Dentry>): (d: Dentry)
    requires s != {}
    ensures d in s && forall e | e in s :: DentryLeq(d, e)
  {
    LeastParentExists(s);
    var least :| ParentIsLeast(least, s);
    var names := set e | e in s && e.parent == least.parent :: e.name;
    assert least.name in names;
    var first := Dentry(least.parent, LeastName(names));
    assert first in s;
    first
  }

  /**
   * `path` is what climbing from `id` by first aliases to the root spells: the recursion of `path_for`, when it ends.
   */
  ghost predicate IsPath(ns: Names, id: nat, path: Path)
    decreases |path|
  {
    if id == ROOT then path == []
    else
      && path != [] && id in ns.aliases && ns.aliases[id] != {}
      && FirstAlias(ns.aliases[id]).name == path[|path| - 1]
      && IsPath(ns, FirstAlias(ns.aliases[id]).parent, path[..|path| - 1])
  }

  ghost function PathFor(ns: Names, id: nat): Option<Path>
  {
    if path :| IsPath(ns, id, path) then Some(path) else None
  }

  lemma {:induction false} PathIsUnique(ns: Names, id: nat, p: Path, q: Path)
    requires IsPath(ns, id, p) && IsPath(ns, id, q)
    ensures p == q
    decreases |p|
  {
    if id != ROOT {
      var d := FirstAlias(ns.aliases[id]);
      PathIsUnique(ns, d.parent, p[..|p| - 1], q[..|q| - 1]);
      assert p == p[..|p| - 1] + [d.name] && q == q[..|q| - 1] + [d.name];
    }
  }

  lemma PathForIs(ns: Names, id: nat, path: Path)
    requires IsPath(ns, id, path)
    ensures PathFor(ns, id) == Some(path)
  {
    PathIsUnique(ns, id, PathFor(ns, id).value, path);
  }

  /** `PathFor` satisfies the recursion of `path_for`, in every namespace. */
  lemma PathForUnfolds(ns: Names, id: nat)
    ensures PathFor(ns, id) ==
            if id == ROOT then Some([])
            else if ns.AliasesOf(id) == {} then None
            else
              var d := FirstAlias(ns.aliases[id]);
              var parent := PathFor(ns, d.parent);
              if parent.None? then None else Some(parent.value + [d.name])
  {
    if id == ROOT {
      PathForIs(ns, id, []);
    } else if ns.AliasesOf(id) != {} {
      var d := FirstAlias(ns.aliases[id]);
      var parent := PathFor(ns, d.parent);
      if parent.Some? {
        assert (parent.value + [d.name])[..|parent.value|] == parent.value;
        PathForIs(ns, id, parent.value + [d.name]);
      } else {
        forall p ensures !IsPath(ns, id, p) {
          if p != [] { assert !IsPath(ns, d.parent, p[..|p| - 1]); }
        }
      }
    }
  }

  // ---------- edits of the index ----------

  /** `Namespace::insert`: the node bound to a dentry, made on first sight. */
  function Inserted(x: Index, d: Dentry): (Index, nat, bool)
  {
    if d in x.names.byName then (x, x.names.byName[d], false)
    else
      var key := x.names.nextKey;
      var (id, table) := Insert(x.table, PathNode(key), d.parent);
      (Index(Names(
         x.names.byName[d := id],
         x.names.aliases[id := x.names.AliasesOf(id) + {d}],
         x.names.keys[key := id], key + 1), table), id, true)
  }

  /** `Namespace::remove`. */
  function Removed(ns: Names, d: Dentry): (Names, Option<nat>)
  {
    if d !in ns.byName then (ns, None)
    else
      var id := ns.byName[d];
      var left := ns.AliasesOf(id) - {d};
      (ns.(byName := ns.byName - {d},
           aliases := if id !in ns.aliases then ns.aliases
                      else if left == {} then ns.aliases - {id}
                      else ns.aliases[id := left]), Some(id))
  }

  /** `Namespace::add_alias`. */
  function Aliased(ns: Names, id: nat, d: Dentry): Names
  {
    ns.(byName := ns.byName[d := id], aliases := ns.aliases[id := ns.AliasesOf(id) + {d}])
  }

  /** The end of `remove_entry`, and `rollback_dentry`. */
  function NameRemoved(x: Index, d: Dentry): Index
  {
    var (ns, id) := Removed(x.names, d);
    if id.None? then Index(ns, x.table) else Index(ns, RemoveLink(x.table, id.value))
  }

  /** The end of `link`. */
  function NameLinked(x: Index, id: nat, d: Dentry): Index
  {
    Index(Aliased(x.names, id, d), AddLink(x.table, id))
  }

  /** The end of `rename`. */
  function NameMoved(x: Index, from: Dentry, to: Dentry): Index
  {
    if from !in x.names.byName then x
    else
      var source := x.names.byName[from];
      if to in x.names.byName && x.names.byName[to] == source then x
      else
        var x1 := NameRemoved(x, to);
        Index(Aliased(Removed(x1.names, from).0, source, to), Reparent(x1.table, source, to.parent))
  }

  // ---------- the index is exact ----------

  ghost predicate Inverse(ns: Names)
  {
    && (forall d | d in ns.byName :: ns.byName[d] in ns.aliases && d in ns.aliases[ns.byName[d]])
    && (forall id | id in ns.aliases :: ns.aliases[id] != {})
    && (forall id, d | id in ns.aliases && d in ns.aliases[id] :: d in ns.byName && ns.byName[d] == id)
  }

  ghost predicate KeyOk(x: Index, id: nat)
    requires id in x.table.slots
  {
    var key := x.table.slots[id].payload.key;
    key in x.names.keys && x.names.keys[key] == id
  }

  /** The two maps are inverse, every node in them is live, links count aliases, and a live node's key finds it. */
  ghost predicate IndexOk(x: Index)
  {
    && Exact(x.table)
    && Inverse(x.names)
    && ROOT in x.table.slots && ROOT !in x.names.aliases && x.table.slots[ROOT].links > 0
    && (forall id | id in x.names.aliases :: id in x.table.slots)
    && (forall id | id in x.table.slots && id != ROOT :: x.table.slots[id].links == |x.names.AliasesOf(id)|)
    && (forall id | id in x.table.slots :: KeyOk(x, id))
    && (forall key | key in x.names.keys :: key < x.names.nextKey)
  }

  lemma FirstIndexOk()
    ensures IndexOk(FirstIndex())
  {
    InitialIsExact(PathNode(1));
  }

  /** What a first sight adds, and all it adds. */
  ghost predicate AddsOneNode(x: Index, x': Index, d: Dentry, id: nat)
  {
    && id !in x.table.slots && id !in x.names.aliases && id != ROOT && id in x'.table.slots
    && x'.table.slots == x.table.slots[id := x'.table.slots[id]]
    && x'.names.aliases == x.names.aliases[id := {d}]
    && x'.names.byName == x.names.byName[d := id]
    && x'.table.slots[id].parent == d.parent && x'.table.slots[id].links == 1
    && x'.table.slots[id].lookups == x'.table.slots[id].opens == x'.table.slots[id].leases == 0
  }

  lemma InsertedKeeps(x: Index, d: Dentry)
    requires IndexOk(x)
    ensures IndexOk(Inserted(x, d).0)
    ensures var (x', id, added) := Inserted(x, d);
            && d in x'.names.byName && x'.names.byName[d] == id
            && (if added then AddsOneNode(x, x', d, id) else x' == x)
  {
    hide Exact, Insert;
    if d !in x.names.byName {
      InsertAddsOne(x.table, PathNode(x.names.nextKey), d.parent);
      var (x', id, _) := Inserted(x, d);
      assert id !in x.names.aliases;
      assert x'.names.aliases[id] == {d};
      forall i | i in x'.table.slots ensures KeyOk(x', i) {
        if i != id { assert KeyOk(x, i); }
      }
    }
  }

  lemma AliasCountAfterRemoval(s: set<Dentry>, d: Dentry)
    requires d in s
    ensures |s - {d}| == |s| - 1 && (s - {d} == {} <==> |s| == 1)
  {
    assert s == (s - {d}) + {d};
  }

  lemma RemovedKeepsInverse(ns: Names, d: Dentry)
    requires Inverse(ns)
    ensures Inverse(Removed(ns, d).0)
    ensures d in ns.byName ==>
              forall id ::
                Removed(ns, d).0.AliasesOf(id) ==
                if id == ns.byName[d] then ns.AliasesOf(id) - {d} else ns.AliasesOf(id)
  {}

  lemma BoundIsAlias(ns: Names, d: Dentry)
    requires Inverse(ns)
    ensures d in ns.byName ==> ns.byName[d] in ns.aliases && d in ns.aliases[ns.byName[d]]
    ensures forall id | id in ns.aliases && d in ns.aliases[id] :: d in ns.byName
  {}

  lemma NameRemovedKeeps(x: Index, d: Dentry)
    requires IndexOk(x)
    ensures IndexOk(NameRemoved(x, d))
  {
    hide Exact, RemoveLink, KeyOk, Inverse, Removed;
    if d in x.names.byName {
      var id := x.names.byName[d];
      NamesAfterRemoval(x, d);
      LinkTaken(x.table, id);
      KeysStay(x, NameRemoved(x, d));
    } else {
      UnboundIsLeft(x.names, d);
    }
  }

  lemma UnboundIsLeft(ns: Names, d: Dentry)
    requires d !in ns.byName
    ensures Removed(ns, d) == (ns, None)
  {}

  lemma NamesAfterRemoval(x: Index, d: Dentry)
    requires IndexOk(x) && d in x.names.byName
    ensures var (ns', r) := Removed(x.names, d);
            var id := x.names.byName[d];
            && r == Some(id) && Inverse(ns') && ns'.keys == x.names.keys && ns'.nextKey == x.names.nextKey
            && id in x.names.aliases && x.table.slots[id].links > 0
            && (forall i | i in ns'.aliases :: i in x.names.aliases && (i == id ==> x.table.slots[id].links > 1))
            && |ns'.AliasesOf(id)| == x.table.slots[id].links - 1
            && forall i | i != id :: ns'.AliasesOf(i) == x.names.AliasesOf(i)
  {
    hide Exact, KeyOk, Inverse;
    var id := x.names.byName[d];
    BoundIsAlias(x.names, d);
    RemovedKeepsInverse(x.names, d);
    AliasCountAfterRemoval(x.names.aliases[id], d);
  }

  lemma KeysStay(x: Index, x': Index)
    requires x'.names.keys == x.names.keys && forall id | id in x.table.slots :: KeyOk(x, id)
    requires forall id | id in x'.table.slots ::
               id in x.table.slots && x'.table.slots[id].payload == x.table.slots[id].payload
    ensures forall id | id in x'.table.slots :: KeyOk(x', id)
  {}

  lemma AliasedKeepsInverse(ns: Names, id: nat, d: Dentry)
    requires Inverse(ns) && d !in ns.byName
    ensures Inverse(Aliased(ns, id, d)) && d !in ns.AliasesOf(id)
    ensures forall i :: Aliased(ns, id, d).AliasesOf(i) == if i == id then ns.AliasesOf(i) + {d} else ns.AliasesOf(i)
  {}

  /** Linking keeps the index exact if and only if the new dentry is unbound. */
  lemma NameLinkedKeepsExactly(x: Index, id: nat, d: Dentry)
    requires IndexOk(x) && id in x.table.slots && id != ROOT
    ensures IndexOk(NameLinked(x, id, d)) <==> d !in x.names.byName
  {
    hide Exact;
    var x' := NameLinked(x, id, d);
    ApplyIsExact(x.table, OpAddLink(id));
    if d !in x.names.byName {
      AliasedKeepsInverse(x.names, id, d);
      assert x'.names.AliasesOf(id) == x.names.AliasesOf(id) + {d};
      forall i | i in x'.table.slots ensures KeyOk(x', i) { assert KeyOk(x, i); }
    } else {
      var bound := x.names.byName[d];
      if bound == id {
        assert x'.names.AliasesOf(id) == x.names.AliasesOf(id);
        assert x'.table.slots[id].links == |x.names.AliasesOf(id)| + 1;
      } else {
        assert d in x'.names.aliases[bound] && x'.names.byName[d] == id;
      }
    }
  }

  lemma ReparentIs(t: Table<PathNode>, ino: nat, parent: nat)
    ensures Apply(t, OpReparent(ino, parent)) == Reparent(t, ino, parent)
  {}

  /** The move proper: `from` is bound to `source` and `to` is bound to nothing. */
  lemma SourceMovedKeeps(x: Index, from: Dentry, to: Dentry)
    requires IndexOk(x) && from in x.names.byName && to !in x.names.byName
    ensures var source := x.names.byName[from];
            IndexOk(Index(Aliased(Removed(x.names, from).0, source, to), Reparent(x.table, source, to.parent)))
  {
    hide Exact, Stable, Apply, KeyOk, Inverse, Removed, Aliased;
    var source := x.names.byName[from];
    var x' := Index(Aliased(Removed(x.names, from).0, source, to), Reparent(x.table, source, to.parent));
    SourceMovedNames(x, from, to);
    assert Apply(x.table, OpReparent(source, to.parent)) == x'.table by { ReparentIs(x.table, source, to.parent); }
    ApplyIsExact(x.table, OpReparent(source, to.parent));
    KeysStay(x, x');
  }

  lemma SourceMovedNames(x: Index, from: Dentry, to: Dentry)
    requires IndexOk(x) && from in x.names.byName && to !in x.names.byName
    ensures var ns' := Aliased(Removed(x.names, from).0, x.names.byName[from], to);
            && Inverse(ns') && ns'.keys == x.names.keys && ns'.nextKey == x.names.nextKey
            && (forall id | id in ns'.aliases :: id in x.names.aliases)
            && forall id :: |ns'.AliasesOf(id)| == |x.names.AliasesOf(id)|
  {
    hide Exact, KeyOk, Inverse;
    var source := x.names.byName[from];
    var ns1 := Removed(x.names, from).0;
    BoundIsAlias(x.names, from);
    RemovedKeepsInverse(x.names, from);
    FreeStaysFree(x.names, from, to);
    AliasedKeepsInverse(ns1, source, to);
    MovedAliasCount(x.names.aliases[source], from, to);
  }

  lemma FreeStaysFree(ns: Names, from: Dentry, to: Dentry)
    requires Inverse(ns) && to !in ns.byName
    ensures to !in Removed(ns, from).0.byName && to !in ns.AliasesOf(if from in ns.byName then ns.byName[from] else 0)
  {}

  lemma MovedAliasCount(s: set<Dentry>, from: Dentry, to: Dentry)
    requires from in s && to !in s
    ensures |(s - {from}) + {to}| == |s|
  {
    AliasCountAfterRemoval(s, from);
  }

  lemma NameMovedKeeps(x: Index, from: Dentry, to: Dentry)
    requires IndexOk(x)
    ensures IndexOk(NameMoved(x, from, to))
  {
    hide Exact, IndexOk;
    if from in x.names.byName && !(to in x.names.byName && x.names.byName[to] == x.names.byName[from]) {
      NameRemovedKeeps(x, to);
      SourceMovedKeeps(NameRemoved(x, to), from, to);
    }
  }

  lemma CountingKeepsLinked(t: Table<PathNode>, op: Op<PathNode>)
    requires OnlyCounts(op)
    ensures var t' := Apply(t, op);
            && (forall id | id in t.slots && t.slots[id].links > 0 :: id in t'.slots)
            && forall id | id in t'.slots :: id in t.slots && t'.slots[id].links == t.slots[id].links
                 && t'.slots[id].parent == t.slots[id].parent && t'.slots[id].payload == t.slots[id].payload
  {}

  /** The runtime's own counting never disturbs the index: it frees only nodes without an alias. */
  lemma RuntimeKeepsIndex(x: Index, op: Op<PathNode>)
    requires IndexOk(x) && OnlyCounts(op)
    ensures IndexOk(x.(table := Apply(x.table, op)))
  {
    hide Exact, Apply;
    ApplyIsExact(x.table, op);
    CountingKeepsLinked(x.table, op);
    var x' := x.(table := Apply(x.table, op));
    forall id | id in x.names.aliases ensures id in x'.table.slots {
      assert x.table.slots[id].links == |x.names.AliasesOf(id)| > 0;
    }
    forall i | i in x'.table.slots ensures KeyOk(x', i) { assert KeyOk(x, i); }
  }
}
