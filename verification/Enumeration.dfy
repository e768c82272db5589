/**
 * typed_fuse_core/src/path_fs.rs and runtime.rs: `readdir` and `readdirplus` of the adapter, run as one operation.
 *
 * The callback emits a list of names. The adapter's sink makes a node for each name on first sight; for
 * `readdirplus` the runtime's accounting sink, inside it, counts a lookup for each entry the buffer takes.
 */
module Enumeration {
  import opened Base
  import opened Nodes
  import opened PathNamespace

  /** `inserted` is the adapter sink's field, `accepted` the accounting sink's. */
  datatype Sink = Sink(x: Index, inserted: seq<Dentry>, accepted: seq<nat>)

  /** A name the callback emits, and whether the reply buffer has room for it. */
  datatype Entry = Entry(name: Name, fits: bool)
  {
    predicate Dots()
    {
      name == DOT || name == DOTDOT
    }
  }

  /**
   * `BasicSink::add`, or `PlusSink::add` over `Accounting::add`. The entries `.` and `..` make no node and count no
   * lookup.
   */
  function Emit(s: Sink, dir: nat, plus: bool, e: Entry): Sink
  {
    if e.Dots() then s
    else
      var d := Dentry(dir, e.name);
      var (x, id, added) := Inserted(s.x, d);
      var taken := e.fits && (plus ==> id in x.table.slots);
      var x1 := if taken && plus && id in x.table.slots then x.(table := Retain(x.table, id)) else x;
      var accepted := if taken && plus then s.accepted + [id] else s.accepted;
      if !added then Sink(x1, s.inserted, accepted)
      else if taken then Sink(x1, s.inserted + [d], accepted)
      else Sink(NameRemoved(x1, d), s.inserted, accepted)
  }

  function EmitAll(s: Sink, dir: nat, plus: bool, list: seq<Entry>): Sink
  {
    if list == [] then s else Emit(EmitAll(s, dir, plus, list[..|list| - 1]), dir, plus, list[|list| - 1])
  }

  /** The adapter's rollback: the inserted dentries, last first. */
  function RolledBack(s: Sink): Sink
    decreases |s.inserted|
  {
    if s.inserted == [] then s
    else
      var last := |s.inserted| - 1;
      RolledBack(s.(x := NameRemoved(s.x, s.inserted[last]), inserted := s.inserted[..last]))
  }

  /** Forgetting a list of accepted entries once per element, first to last. */
  function Forgotten(s: Sink): Sink
    decreases |s.accepted|
  {
    if s.accepted == [] then s
    else Forgotten(s.(x := s.x.(table := Forget(s.x.table, s.accepted[0], 1)), accepted := s.accepted[1..]))
  }

  // ---------- what a listing adds, while it runs and while it is undone ----------

  ghost predicate NamesExtend(before: Names, after: Names, inserted: seq<Dentry>, slots: set<nat>)
  {
    && (forall d | d in before.byName :: d in after.byName && after.byName[d] == before.byName[d])
    && (forall d | d in after.byName :: d in before.byName || d in inserted)
    && (forall d | d in inserted :: d in after.byName && d !in before.byName && after.byName[d] !in slots)
    && (forall j, k | 0 <= j < k < |inserted| :: inserted[j] != inserted[k])
  }

  ghost predicate SlotsExtend(before: Table<PathNode>, after: Table<PathNode>, accepted: multiset<nat>)
  {
    && (forall id | id in before.slots :: id in after.slots
          && after.slots[id] == before.slots[id].(lookups := before.slots[id].lookups + accepted[id]))
    && (forall id | id in after.slots && id !in before.slots ::
          after.slots[id].opens == 0 && after.slots[id].leases == 0 && after.slots[id].lookups == accepted[id])
    && (forall id | id in accepted :: id in after.slots)
  }

  ghost predicate Extends(x: Index, s: Sink)
  {
    && IndexOk(s.x)
    && NamesExtend(x.names, s.x.names, s.inserted, x.table.slots.Keys)
    && SlotsExtend(x.table, s.x.table, multiset(s.accepted))
  }

  lemma StartExtends(x: Index)
    requires IndexOk(x)
    ensures Extends(x, Sink(x, [], []))
  {}

  lemma AddedNames(before: Names, ns: Names, ns': Names, inserted: seq<Dentry>, slots: set<nat>, d: Dentry, id: nat)
    requires NamesExtend(before, ns, inserted, slots) && d !in ns.byName && id !in slots
    requires ns'.byName == ns.byName[d := id]
    ensures NamesExtend(before, ns', inserted + [d], slots)
  {}

  lemma AddedSlots(before: Table<PathNode>, t: Table<PathNode>, t': Table<PathNode>, accepted: multiset<nat>, id: nat)
    requires SlotsExtend(before, t, accepted) && id !in t.slots && id in t'.slots
    requires t'.slots == t.slots[id := t'.slots[id]]
    requires t'.slots[id].lookups == t'.slots[id].opens == t'.slots[id].leases == 0
    ensures SlotsExtend(before, t', accepted)
  {
    assert id !in accepted;
  }

  lemma InsertExtends(x: Index, s: Sink, d: Dentry)
    requires IndexOk(x) && Extends(x, s)
    ensures var (x1, id, added) := Inserted(s.x, d);
            && Extends(x, Sink(x1, if added then s.inserted + [d] else s.inserted, s.accepted))
            && id in x1.table.slots
  {
    hide IndexOk, Inserted, NamesExtend, SlotsExtend;
    var (x1, id, added) := Inserted(s.x, d);
    InsertedKeeps(s.x, d);
    InsertedIsNew(s.x, d);
    IndexIsBound(x1);
    if added {
      assert id !in x.table.slots by { OldSlotsStay(x, s); }
      AddedNames(x.names, s.x.names, x1.names, s.inserted, x.table.slots.Keys, d, id);
      AddedSlots(x.table, s.x.table, x1.table, multiset(s.accepted), id);
    }
  }

  lemma OldSlotsStay(x: Index, s: Sink)
    requires Extends(x, s)
    ensures forall id | id in x.table.slots :: id in s.x.table.slots
  {}

  lemma InsertedIsNew(x: Index, d: Dentry)
    ensures Inserted(x, d).2 <==> d !in x.names.byName
  {}

  lemma RetainedSlots(
    before: Table<PathNode>, t: Table<PathNode>, accepted: multiset<nat>, accepted': multiset<nat>, id: nat)
    requires SlotsExtend(before, t, accepted) && id in t.slots
    requires forall i :: accepted'[i] == accepted[i] + (if i == id then 1 else 0)
    ensures SlotsExtend(before, Retain(t, id), accepted')
  {
    forall i | i in accepted' ensures i in t.slots { assert accepted'[i] > 0; }
  }

  lemma RetainExtends(x: Index, s: Sink, id: nat)
    requires IndexOk(x) && Extends(x, s) && id in s.x.table.slots
    ensures Extends(x, s.(x := s.x.(table := Retain(s.x.table, id)), accepted := s.accepted + [id]))
  {
    hide IndexOk, NamesExtend, SlotsExtend;
    RuntimeKeepsIndex(s.x, OpLookup(id));
    RetainedSlots(x.table, s.x.table, multiset(s.accepted), multiset(s.accepted + [id]), id);
  }

  lemma UnlinkExtends(x: Index, t: Table<PathNode>, accepted: multiset<nat>, id: nat)
    requires SlotsExtend(x.table, t, accepted) && id in t.slots && id !in x.table.slots
    ensures SlotsExtend(x.table, RemoveLink(t, id), accepted)
  {
    var t' := RemoveLink(t, id);
    assert id !in t'.slots ==> t.slots[id].lookups == 0;
  }

  lemma RemovedNames(before: Names, ns: Names, ns': Names, inserted: seq<Dentry>, slots: set<nat>)
    requires NamesExtend(before, ns, inserted, slots) && inserted != []
    requires ns'.byName == ns.byName - {inserted[|inserted| - 1]}
    ensures NamesExtend(before, ns', inserted[..|inserted| - 1], slots)
  {
    var last := |inserted| - 1;
    assert inserted[last] in inserted && inserted == inserted[..last] + [inserted[last]];
    forall d | d in inserted[..last] ensures d in inserted && d != inserted[last] {}
  }

  lemma RemoveExtends(x: Index, s: Sink)
    requires IndexOk(x) && Extends(x, s) && s.inserted != []
    ensures var last := |s.inserted| - 1;
            Extends(x, s.(x := NameRemoved(s.x, s.inserted[last]), inserted := s.inserted[..last]))
  {
    hide IndexOk, RemoveLink, SlotsExtend;
    var d := s.inserted[|s.inserted| - 1];
    NameRemovedKeeps(s.x, d);
    assert d in s.inserted;
    IndexIsBound(s.x);
    UnlinkExtends(x, s.x.table, multiset(s.accepted), s.x.names.byName[d]);
    RemovedNames(x.names, s.x.names, NameRemoved(s.x, d).names, s.inserted, x.table.slots.Keys);
  }

  lemma IndexIsBound(x: Index)
    requires IndexOk(x)
    ensures Inverse(x.names) && forall d | d in x.names.byName :: x.names.byName[d] in x.table.slots
  {}

  lemma ForgottenSlots(
    before: Table<PathNode>, t: Table<PathNode>, accepted: multiset<nat>, accepted': multiset<nat>, id: nat)
    requires SlotsExtend(before, t, accepted)
    requires forall i :: accepted[i] == accepted'[i] + (if i == id then 1 else 0)
    requires forall i | i in before.slots :: !before.slots[i].Droppable()
    ensures SlotsExtend(before, Forget(t, id, 1), accepted')
  {
    assert id in accepted;
    forall i | i in accepted' ensures i in Forget(t, id, 1).slots { assert i in accepted; }
  }

  lemma ForgetExtends(x: Index, s: Sink)
    requires IndexOk(x) && Extends(x, s) && s.accepted != []
    ensures Extends(x, s.(x := s.x.(table := Forget(s.x.table, s.accepted[0], 1)), accepted := s.accepted[1..]))
  {
    hide IndexOk, NamesExtend, SlotsExtend, Forget;
    var id := s.accepted[0];
    RuntimeKeepsIndex(s.x, OpForget(id, 1));
    assert s.accepted == [id] + s.accepted[1..];
    LiveAreUsed(x);
    ForgottenSlots(x.table, s.x.table, multiset(s.accepted), multiset(s.accepted[1..]), id);
  }

  lemma LiveAreUsed(x: Index)
    requires IndexOk(x)
    ensures forall id | id in x.table.slots :: !x.table.slots[id].Droppable()
  {}

  lemma EmitExtends(x: Index, s: Sink, dir: nat, plus: bool, e: Entry)
    requires IndexOk(x) && Extends(x, s)
    ensures Extends(x, Emit(s, dir, plus, e))
    ensures forall d | d in s.x.names.byName ::
              d in Emit(s, dir, plus, e).x.names.byName
                && Emit(s, dir, plus, e).x.names.byName[d] == s.x.names.byName[d]
  {
    hide Extends, IndexOk, Retain;
    if !e.Dots() {
      var d := Dentry(dir, e.name);
      var (x1, id, added) := Inserted(s.x, d);
      InsertExtends(x, s, d);
      var s1 := Sink(x1, if added then s.inserted + [d] else s.inserted, s.accepted);
      if e.fits {
        if plus { RetainExtends(x, s1, id); }
      } else if added {
        RemoveExtends(x, s1);
        assert s1.inserted[|s1.inserted| - 1] == d && s1.inserted[..|s1.inserted| - 1] == s.inserted;
      }
      BindingsGrow(s.x, d);
    }
  }

  lemma BindingsGrow(x: Index, d: Dentry)
    ensures var x1 := Inserted(x, d).0;
            && (forall e | e in x.names.byName :: e in x1.names.byName && x1.names.byName[e] == x.names.byName[e])
            && (d !in x.names.byName ==> Removed(x1.names, d).0.byName == x.names.byName)
  {}

  lemma {:induction false} EmitAllExtends(x: Index, dir: nat, plus: bool, list: seq<Entry>)
    requires IndexOk(x)
    ensures Extends(x, EmitAll(Sink(x, [], []), dir, plus, list))
  {
    hide Extends, IndexOk, Emit;
    if list == [] {
      StartExtends(x);
    } else {
      EmitAllExtends(x, dir, plus, list[..|list| - 1]);
      EmitExtends(x, EmitAll(Sink(x, [], []), dir, plus, list[..|list| - 1]), dir, plus, list[|list| - 1]);
    }
  }

  lemma {:induction false} RolledBackExtends(x: Index, s: Sink)
    requires IndexOk(x) && Extends(x, s)
    ensures Extends(x, RolledBack(s)) && RolledBack(s).inserted == [] && RolledBack(s).accepted == s.accepted
    decreases |s.inserted|
  {
    hide Extends, IndexOk;
    if s.inserted != [] {
      var last := |s.inserted| - 1;
      RemoveExtends(x, s);
      RolledBackExtends(x, s.(x := NameRemoved(s.x, s.inserted[last]), inserted := s.inserted[..last]));
    }
  }

  lemma {:induction false} ForgottenExtends(x: Index, s: Sink)
    requires IndexOk(x) && Extends(x, s)
    ensures Extends(x, Forgotten(s)) && Forgotten(s).accepted == [] && Forgotten(s).inserted == s.inserted
    ensures Forgotten(s).x.names == s.x.names
    decreases |s.accepted|
  {
    hide Extends, IndexOk;
    if s.accepted != [] {
      ForgetExtends(x, s);
      ForgottenExtends(x, s.(x := s.x.(table := Forget(s.x.table, s.accepted[0], 1)), accepted := s.accepted[1..]));
    }
  }

  /** The forward map determines the reverse one. */
  lemma InverseIsUnique(ns: Names, ns': Names)
    requires Inverse(ns) && Inverse(ns') && ns.byName == ns'.byName
    ensures ns.aliases == ns'.aliases
  {
    forall id | id in ns.aliases ensures id in ns'.aliases && ns'.aliases[id] == ns.aliases[id] {
      var d :| d in ns.aliases[id];
      assert ns'.byName[d] == id;
      forall e | e in ns.aliases[id] ensures e in ns'.aliases[id] { assert ns'.byName[e] == id; }
      forall e | e in ns'.aliases[id] ensures e in ns.aliases[id] { assert ns.byName[e] == id; }
    }
    forall id | id in ns'.aliases ensures id in ns.aliases {
      var d :| d in ns'.aliases[id];
      assert ns.byName[d] == id;
    }
  }

  lemma NothingLeftOver(x: Index, s: Sink)
    requires IndexOk(x) && Extends(x, s) && s.inserted == [] && s.accepted == []
    ensures s.x.names.byName == x.names.byName && s.x.names.aliases == x.names.aliases
    ensures s.x.table.slots == x.table.slots && Exact(s.x.table)
  {
    hide Exact, Inverse;
    assert s.x.names.byName == x.names.byName;
    InverseIsUnique(s.x.names, x.names);
    LiveAreUsed(s.x);
    forall id | id in s.x.table.slots ensures id in x.table.slots {
      assert id !in x.names.aliases ==> |s.x.names.AliasesOf(id)| == 0;
    }
  }

  /**
   * A listing whose callback fails after emitting any names, repeats included, leaves both maps and every live slot
   * with its counts exactly as they were, and reclaims every node it made.
   */
  lemma FailedListingLeavesNoTrace(x: Index, dir: nat, plus: bool, list: seq<Entry>)
    requires IndexOk(x)
    ensures var after := Forgotten(RolledBack(EmitAll(Sink(x, [], []), dir, plus, list))).x;
            && IndexOk(after)
            && after.names.byName == x.names.byName && after.names.aliases == x.names.aliases
            && after.table.slots == x.table.slots && Exact(after.table)
  {
    hide IndexOk;
    var s := EmitAll(Sink(x, [], []), dir, plus, list);
    EmitAllExtends(x, dir, plus, list);
    RolledBackExtends(x, s);
    ForgottenExtends(x, RolledBack(s));
    NothingLeftOver(x, Forgotten(RolledBack(s)));
  }

  // ---------- accounting ----------

  /** The names a listing is charged for: taken by the buffer, and neither `.` nor `..`. */
  function Charged(list: seq<Entry>): seq<Name>
  {
    if list == [] then []
    else
      var (front, last) := (Charged(list[..|list| - 1]), list[|list| - 1]);
      if last.fits && !last.Dots() then front + [last.name] else front
  }

  ghost predicate Charges(s: Sink, dir: nat, names: seq<Name>)
  {
    && |s.accepted| == |names|
    && forall k | 0 <= k < |names| ::
         Dentry(dir, names[k]) in s.x.names.byName && s.accepted[k] == s.x.names.byName[Dentry(dir, names[k])]
  }

  lemma {:induction false} AcceptedAreTheCharged(x: Index, dir: nat, list: seq<Entry>)
    requires IndexOk(x)
    ensures Charges(EmitAll(Sink(x, [], []), dir, true, list), dir, Charged(list))
  {
    hide IndexOk, Extends, Retain, NameRemoved, Inserted;
    if list != [] {
      var (front, e) := (list[..|list| - 1], list[|list| - 1]);
      var s := EmitAll(Sink(x, [], []), dir, true, front);
      AcceptedAreTheCharged(x, dir, front);
      EmitAllExtends(x, dir, true, front);
      EmitExtends(x, s, dir, true, e);
      if !e.Dots() {
        InsertExtends(x, s, Dentry(dir, e.name));
        InsertBinds(s.x, Dentry(dir, e.name));
      }
    }
  }

  lemma InsertBinds(x: Index, d: Dentry)
    ensures var (x', id, _) := Inserted(x, d); d in x'.names.byName && x'.names.byName[d] == id
  {}

  /**
   * A successful `readdirplus` raises each node's lookups by exactly its multiplicity in the returned list, which
   * holds the nodes of the taken names in order and nothing for `.` and `..`; forgetting that list once per element
   * restores every count and keeps the names.
   */
  lemma ListingIsCharged(x: Index, dir: nat, list: seq<Entry>)
    requires IndexOk(x)
    ensures var s := EmitAll(Sink(x, [], []), dir, true, list);
            && Charges(s, dir, Charged(list))
            && (forall id | id in x.table.slots :: id in s.x.table.slots && s.x.table.slots[id] ==
                  x.table.slots[id].(lookups := x.table.slots[id].lookups + multiset(s.accepted)[id]))
            && (forall id | id in s.x.table.slots && id !in x.table.slots ::
                  s.x.table.slots[id].lookups == multiset(s.accepted)[id])
    ensures var s := EmitAll(Sink(x, [], []), dir, true, list);
            && Forgotten(s).x.names == s.x.names
            && (forall id | id in x.table.slots ::
                  id in Forgotten(s).x.table.slots && Forgotten(s).x.table.slots[id] == x.table.slots[id])
            && (forall id | id in Forgotten(s).x.table.slots && id !in x.table.slots ::
                  Forgotten(s).x.table.slots[id].lookups == 0)
  {
    hide IndexOk;
    AcceptedAreTheCharged(x, dir, list);
    EmitAllExtends(x, dir, true, list);
    ForgottenExtends(x, EmitAll(Sink(x, [], []), dir, true, list));
  }
}
