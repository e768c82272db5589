/** typed_fuse_core/src/path_fs.rs: the namespace, the adapter's edits and its directory sinks, updated in place. */
module PathNodeFs {
  import opened Base
  import opened Nodes
  import opened PathNamespace
  import opened Enumeration

  class Namespace {
    var byName: map<Dentry, nat>
    var aliases: map<nat, set<Dentry>>
    var keys: map<nat, nat>
    var nextKey: nat

    ghost function Value(): Names
      reads this
    {
      Names(byName, aliases, keys, nextKey)
    }

    constructor ()
      ensures Value() == FIRST_NAMES
    {
      byName, aliases, keys, nextKey := map[], map[], map[1 := ROOT], 2;
    }

    method AddAlias(id: nat, d: Dentry)
      modifies this
      ensures Value() == Aliased(old(Value()), id, d)
    {
      byName := byName[d := id];
      var known := if id in aliases then aliases[id] else {};
      aliases := aliases[id := known + {d}];
    }

    method Remove(d: Dentry) returns (id: Option<nat>)
      modifies this
      ensures (Value(), id) == Removed(old(Value()), d)
    {
      if d !in byName { return None; }
      id := Some(byName[d]);
      byName := byName - {d};
      if id.value in aliases {
        var left := aliases[id.value] - {d};
        if left == {} {
          aliases := aliases - {id.value};
        } else {
          aliases := aliases[id.value := left];
        }
      }
    }

    /** A `requires` bound is an overflow panic. */
    method Insert(cx: NodeTable<PathNode>, d: Dentry) returns (id: nat, added: bool)
      requires cx.Valid()
      requires d !in byName ==> (cx.free == [] ==> cx.nextIno < U64_MAX) && nextKey < U64_MAX
      modifies this, cx
      ensures cx.Valid()
      ensures (Index(Value(), cx.Value()), id, added) == Inserted(old(Index(Value(), cx.Value())), d)
    {
      if d in byName { return byName[d], false; }
      var key := nextKey;
      nextKey := nextKey + 1;
      id := cx.InsertNode(PathNode(key), d.parent);
      keys := keys[key := id];
      AddAlias(id, d);
      added := true;
    }
  }

  class PathNodeFs {
    const names: Namespace
    const cx: NodeTable<PathNode>

    constructor ()
      ensures fresh(names) && fresh(cx) && cx.Valid() && Value() == FirstIndex()
    {
      names := new Namespace();
      cx := new NodeTable(PathNode(1));
    }

    ghost function Value(): Index
      reads names, cx
    {
      Index(names.Value(), cx.Value())
    }

    /** The end of `remove_entry`, once the wrapped filesystem has removed the entry; also `rollback_dentry`. */
    method RemoveName(d: Dentry)
      requires cx.Valid()
      modifies names, cx
      ensures cx.Valid() && Value() == NameRemoved(old(Value()), d)
    {
      var id := names.Remove(d);
      if id.Some? {
        cx.Unlink(id.value);
      }
    }

    /** The end of `rename`, once the wrapped filesystem has renamed. */
    method MoveName(from: Dentry, to: Dentry)
      requires cx.Valid()
      modifies names, cx
      ensures cx.Valid() && Value() == NameMoved(old(Value()), from, to)
    {
      if from !in names.byName { return; }
      var source := names.byName[from];
      if to in names.byName && names.byName[to] == source { return; }
      RemoveName(to);
      var _ := names.Remove(from);
      names.AddAlias(source, to);
      cx.SetParent(source, to.parent);
    }

    /** The end of `link`, once the wrapped filesystem has linked. */
    method LinkName(id: nat, d: Dentry)
      requires cx.Valid()
      requires id in cx.slots ==> cx.slots[id].links < U32_MAX
      modifies names, cx
      ensures cx.Valid() && Value() == NameLinked(old(Value()), id, d)
    {
      names.AddAlias(id, d);
      cx.Link(id);
    }
  }

  /** `BasicSink`, or `PlusSink` within the runtime's `Accounting`, during one callback. */
  class ListingSink {
    const owner: PathNodeFs
    const dir: nat
    const plus: bool
    var inserted: seq<Dentry>
    var accepted: seq<nat>

    ghost function Value(): Sink
      reads this, owner.names, owner.cx
    {
      Sink(owner.Value(), inserted, accepted)
    }

    constructor (owner: PathNodeFs, dir: nat, plus: bool)
      ensures this.owner == owner && this.dir == dir && this.plus == plus
      ensures Value() == Sink(owner.Value(), [], [])
    {
      this.owner, this.dir, this.plus := owner, dir, plus;
      inserted, accepted := [], [];
    }

    /** The counters of a first sight, or of one lookup more, do not overflow. */
    ghost predicate RoomFor(d: Dentry)
      reads this, owner.names, owner.cx
    {
      if d !in owner.names.byName then
        (owner.cx.free == [] ==> owner.cx.nextIno < U64_MAX) && owner.names.nextKey < U64_MAX
      else
        owner.names.byName[d] in owner.cx.slots ==> owner.cx.slots[owner.names.byName[d]].lookups < U64_MAX
    }

    /** `add`; `fits` is the answer of the reply buffer. */
    method Add(name: Name, fits: bool)
      requires owner.cx.Valid()
      requires Entry(name, fits).Dots() || RoomFor(Dentry(dir, name))
      modifies this, owner.names, owner.cx
      ensures owner.cx.Valid() && Value() == Emit(old(Value()), dir, plus, Entry(name, fits))
    {
      hide Inserted, NameRemoved, Exact;
      if name == DOT || name == DOTDOT { return; }
      var d := Dentry(dir, name);
      InsertCountsNothing(owner.Value(), d);
      var id, added := owner.names.Insert(owner.cx, d);
      var taken := fits && (plus ==> id in owner.cx.slots);
      if taken && plus {
        var found := owner.cx.RetainLookup(id);
        if found {
          accepted := accepted + [id];
        }
      }
      if added {
        if taken {
          inserted := inserted + [d];
        } else {
          owner.RemoveName(d);
        }
      }
    }

    /** The adapter's rollback of a failing callback: the inserted dentries, last first. */
    method RollBack()
      requires owner.cx.Valid()
      modifies this, owner.names, owner.cx
      ensures owner.cx.Valid() && Value() == RolledBack(old(Value())) && inserted == []
    {
      hide IndexOk, Removed, NameRemoved;
      while inserted != []
        invariant owner.cx.Valid() && RolledBack(Value()) == RolledBack(old(Value()))
        decreases |inserted|
      {
        var last := |inserted| - 1;
        var d := inserted[last];
        inserted := inserted[..last];
        owner.RemoveName(d);
      }
    }

    /** The runtime's forgets after a failing callback, one per accepted entry, first to last. */
    method ForgetAccepted()
      requires owner.cx.Valid()
      modifies this, owner.cx
      ensures owner.cx.Valid() && Value() == Forgotten(old(Value()))
    {
      while accepted != []
        invariant owner.cx.Valid() && Forgotten(Value()) == Forgotten(old(Value()))
        decreases |accepted|
      {
        var id := accepted[0];
        accepted := accepted[1..];
        owner.cx.ForgetLookups(id, 1);
      }
    }

    /** What a failing callback triggers. */
    method Fail()
      requires owner.cx.Valid()
      modifies this, owner.names, owner.cx
      ensures owner.cx.Valid() && Value() == Forgotten(RolledBack(old(Value())))
    {
      RollBack();
      ForgetAccepted();
    }
  }

  lemma InsertCountsNothing(x: Index, d: Dentry)
    ensures var (x', id, added) := Inserted(x, d);
            && added == (d !in x.names.byName)
            && (added ==> id in x'.table.slots && x'.table.slots[id].lookups == 0)
            && (!added ==> x' == x && id == x.names.byName[d])
  {}

  /**
   * A directory read that fails after any emissions leaves the adapter's index and the table's slots as it found
   * them.
   */
  method FailingRead(fs: PathNodeFs, dir: nat, plus: bool, list: seq<Entry>)
    requires IndexOk(fs.Value())
    requires fs.cx.Valid() && fs.cx.nextIno + |list| < U64_MAX && fs.names.nextKey + |list| < U64_MAX
    requires forall id | id in fs.cx.slots :: fs.cx.slots[id].lookups + |list| < U64_MAX
    modifies fs.names, fs.cx
    ensures IndexOk(fs.Value())
    ensures fs.names.byName == old(fs.names.byName) && fs.names.aliases == old(fs.names.aliases)
    ensures fs.cx.slots == old(fs.cx.slots)
  {
    ghost var before := fs.Value();
    var sink := new ListingSink(fs, dir, plus);
    for i := 0 to |list|
      invariant sink.owner == fs && sink.dir == dir && sink.plus == plus && fs.cx.Valid()
      invariant sink.Value() == EmitAll(Sink(before, [], []), dir, plus, list[..i])
      invariant fs.cx.nextIno <= old(fs.cx.nextIno) + i && fs.names.nextKey <= old(fs.names.nextKey) + i
      invariant forall id | id in fs.cx.slots :: fs.cx.slots[id].lookups + |list| - i < U64_MAX
    {
      assert list[..i + 1][..i] == list[..i];
      EmissionGrowsByOne(sink.Value(), dir, plus, list[i]);
      sink.Add(list[i].name, list[i].fits);
    }
    assert list[..|list|] == list;
    sink.Fail();
    FailedListingLeavesNoTrace(before, dir, plus, list);
  }

  lemma EmissionGrowsByOne(s: Sink, dir: nat, plus: bool, e: Entry)
    ensures var s' := Emit(s, dir, plus, e);
            && s'.x.table.nextIno <= s.x.table.nextIno + 1 && s'.x.names.nextKey <= s.x.names.nextKey + 1
            && forall id | id in s'.x.table.slots ::
                 s'.x.table.slots[id].lookups <= (if id in s.x.table.slots then s.x.table.slots[id].lookups else 0) + 1
  {}
}
