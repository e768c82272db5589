/**
 * typed_fuse_core/src/runtime.rs: inode allocation and reference counting.
 *
 * `Table` is the value of a node table and its functions are the critical sections of the
 * table's mutex; the class `NodeTable` performs them in place. `log` is history: every
 * (inode, generation) ever issued, in order. The position of an issue in the log
 * identifies the `Arc<NodeRecord>` allocated with it.
 */
module Nodes {
  import opened Base

  const ROOT: nat := 1
  const GENERATIONS: nat := 0x1_0000_0000_0000_0000

  datatype Slot<N> = Slot(
    payload: N, record: nat, generation: nat,
    links: nat, lookups: nat, opens: nat, leases: nat, parent: nat)
  {
    predicate Droppable()
    {
      links == 0 && lookups == 0 && opens == 0 && leases == 0
    }
  }

  datatype Issue = Issue(ino: nat, generation: nat)

  /** A `NodeRef`: the inode and the record it was leased on. */
  datatype NodeRef = NodeRef(ino: nat, record: nat)

  datatype Table<N> = Table(slots: map<nat, Slot<N>>, nextIno: nat, free: seq<Issue>, log: seq<Issue>)
  {
    function RefOf(ino: nat): NodeRef
      requires ino in slots
    {
      NodeRef(ino, slots[ino].record)
    }

    predicate Current(r: NodeRef)
    {
      r.ino in slots && slots[r.ino].record == r.record
    }
  }

  function SaturatingSub(a: nat, b: nat): nat
  {
    if a < b then 0 else a - b
  }

  /** `generation.wrapping_add(1)` on a `u64`. */
  function NextGeneration(g: nat): nat
  {
    (g + 1) % GENERATIONS
  }

  /** The generation of an inode's k-th reuse. */
  function Generation(k: nat): nat
  {
    if k == 0 then 0 else NextGeneration(Generation(k - 1))
  }

  // ---------- critical sections ----------

  function Initial<N>(root: N): Table<N>
  {
    Table(map[ROOT := Slot(root, 0, 0, 1, 0, 0, 0, ROOT)], 2, [], [Issue(ROOT, 0)])
  }

  function Alloc<N>(t: Table<N>): (Issue, Table<N>)
  {
    if t.free == [] then (Issue(t.nextIno, 0), t.(nextIno := t.nextIno + 1))
    else (t.free[|t.free| - 1], t.(free := t.free[..|t.free| - 1]))
  }

  function MaybeDrop<N>(t: Table<N>, ino: nat): Table<N>
  {
    if ino in t.slots && t.slots[ino].Droppable() then
      t.(slots := t.slots - {ino}, free := t.free + [Issue(ino, NextGeneration(t.slots[ino].generation))])
    else t
  }

  function Insert<N>(t: Table<N>, payload: N, parent: nat): (nat, Table<N>)
  {
    var (issue, t1) := Alloc(t);
    var slot := Slot(payload, |t1.log|, issue.generation, 1, 0, 0, 0, parent);
    (issue.ino, t1.(slots := t1.slots[issue.ino := slot], log := t1.log + [issue]))
  }

  /** Replaces the slot of a live inode. */
  function Store<N>(t: Table<N>, ino: nat, slot: Slot<N>): Table<N>
  {
    t.(slots := t.slots[ino := slot])
  }

  /** `Cx::get`, on an inode that is present. */
  function Lease<N>(t: Table<N>, ino: nat): Table<N>
    requires ino in t.slots
  {
    Store(t, ino, t.slots[ino].(leases := t.slots[ino].leases + 1))
  }

  /** Dropping a `NodeRef`. */
  function Unlease<N>(t: Table<N>, r: NodeRef): Table<N>
  {
    var t1 :=
      if t.Current(r) then Store(t, r.ino, t.slots[r.ino].(leases := SaturatingSub(t.slots[r.ino].leases, 1)))
      else t;
    MaybeDrop(t1, r.ino)
  }

  function Reparent<N>(t: Table<N>, ino: nat, parent: nat): Table<N>
  {
    if ino in t.slots then Store(t, ino, t.slots[ino].(parent := parent)) else t
  }

  function AddLink<N>(t: Table<N>, ino: nat): Table<N>
  {
    if ino in t.slots then Store(t, ino, t.slots[ino].(links := t.slots[ino].links + 1)) else t
  }

  function RemoveLink<N>(t: Table<N>, ino: nat): Table<N>
  {
    if ino in t.slots then
      MaybeDrop(Store(t, ino, t.slots[ino].(links := SaturatingSub(t.slots[ino].links, 1))), ino)
    else t
  }

  /** `retain_lookup`, and the counting half of `entry_for`, on an inode that is present. */
  function Retain<N>(t: Table<N>, ino: nat): Table<N>
    requires ino in t.slots
  {
    Store(t, ino, t.slots[ino].(lookups := t.slots[ino].lookups + 1))
  }

  function Forget<N>(t: Table<N>, ino: nat, n: nat): Table<N>
  {
    if ino in t.slots then
      MaybeDrop(Store(t, ino, t.slots[ino].(lookups := SaturatingSub(t.slots[ino].lookups, n))), ino)
    else t
  }

  /** `add_open`, on an inode that is present. */
  function AddOpen<N>(t: Table<N>, ino: nat): Table<N>
    requires ino in t.slots
  {
    Store(t, ino, t.slots[ino].(opens := t.slots[ino].opens + 1))
  }

  function RemoveOpen<N>(t: Table<N>, ino: nat): Table<N>
  {
    if ino in t.slots then
      MaybeDrop(Store(t, ino, t.slots[ino].(opens := SaturatingSub(t.slots[ino].opens, 1))), ino)
    else t
  }

  // ---------- what holds whenever the lock is free ----------

  function TimesIssued(log: seq<Issue>, ino: nat): nat
  {
    if log == [] then 0
    else TimesIssued(log[..|log| - 1], ino) + (if log[|log| - 1].ino == ino then 1 else 0)
  }

  ghost predicate IsFree(free: seq<Issue>, ino: nat)
  {
    exists k :: 0 <= k < |free| && free[k].ino == ino
  }

  /** The live and the free inodes partition `[1, nextIno)`, and nothing live is droppable. */
  ghost predicate Partitioned<N>(t: Table<N>)
  {
    && t.nextIno >= 1
    && (forall ino | ino in t.slots :: 1 <= ino < t.nextIno && !t.slots[ino].Droppable() && !IsFree(t.free, ino))
    && (forall k | 0 <= k < |t.free| :: 1 <= t.free[k].ino < t.nextIno)
    && (forall j, k | 0 <= j < k < |t.free| :: t.free[j].ino != t.free[k].ino)
    && (forall ino | 1 <= ino < t.nextIno :: ino in t.slots || IsFree(t.free, ino))
  }

  /** Each issue of an inode carries the generation of that reuse. */
  ghost predicate LogNumbered(log: seq<Issue>)
  {
    log == [] ||
    var (before, last) := (log[..|log| - 1], log[|log| - 1]);
    LogNumbered(before) && last.generation == Generation(TimesIssued(before, last.ino))
  }

  /** The free list holds each inode's next generation. */
  ghost predicate FreeNumbered(free: seq<Issue>, log: seq<Issue>)
  {
    forall k | 0 <= k < |free| :: free[k].generation == Generation(TimesIssued(log, free[k].ino))
  }

  /** A live slot's record is the last issue of its inode. */
  ghost predicate SlotNumbered<N>(ino: nat, slot: Slot<N>, log: seq<Issue>)
  {
    && slot.record < |log|
    && log[slot.record] == Issue(ino, slot.generation)
    && NextGeneration(slot.generation) == Generation(TimesIssued(log, ino))
  }

  predicate IssuedBelow(issue: Issue, nextIno: nat)
  {
    1 <= issue.ino < nextIno
  }

  ghost predicate Logged<N>(t: Table<N>)
  {
    && LogNumbered(t.log)
    && (forall i {:trigger IssuedBelow(t.log[i], t.nextIno)} | 0 <= i < |t.log| :: IssuedBelow(t.log[i], t.nextIno))
    && FreeNumbered(t.free, t.log)
    && (forall ino {:trigger SlotNumbered(ino, t.slots[ino], t.log)} | ino in t.slots ::
          SlotNumbered(ino, t.slots[ino], t.log))
  }

  ghost predicate Exact<N>(t: Table<N>)
  {
    Partitioned(t) && Logged(t)
  }

  /** No inode that stays live changes its record, and records already issued stay issued. */
  ghost predicate Stable<N>(t: Table<N>, t': Table<N>)
  {
    && |t.log| <= |t'.log| && t'.log[..|t.log|] == t.log
    && forall ino | ino in t.slots && ino in t'.slots ::
         t'.slots[ino].record == t.slots[ino].record && t'.slots[ino].generation == t.slots[ino].generation
  }

  // ---------- lemmas ----------

  lemma InitialIsExact<N>(root: N)
    ensures Exact(Initial(root))
  {
    var log := Initial(root).log;
    assert log[..0] == [];
  }

  lemma {:induction false} NeverIssued(log: seq<Issue>, ino: nat)
    requires forall i | 0 <= i < |log| :: log[i].ino != ino
    ensures TimesIssued(log, ino) == 0
  {
    if log != [] {
      NeverIssued(log[..|log| - 1], ino);
    }
  }

  lemma IssueOneMore(log: seq<Issue>, issue: Issue)
    requires LogNumbered(log) && issue.generation == Generation(TimesIssued(log, issue.ino))
    ensures LogNumbered(log + [issue])
    ensures forall ino :: TimesIssued(log + [issue], ino) ==
                          TimesIssued(log, ino) + (if ino == issue.ino then 1 else 0)
  {
    assert (log + [issue])[..|log|] == log;
  }

  lemma InsertPartitions<N>(t: Table<N>, payload: N, parent: nat)
    requires Partitioned(t)
    ensures Partitioned(Insert(t, payload, parent).1)
    ensures Insert(t, payload, parent).0 !in t.slots
  {
    var (ino, t') := Insert(t, payload, parent);
    assert t'.slots[ino].links == 1;
    if t.free == [] {
      forall i | 1 <= i < t'.nextIno ensures i in t'.slots {
        if i != ino { assert i in t.slots || IsFree(t.free, i); }
      }
    } else {
      var last := |t.free| - 1;
      assert t.free[last].ino == ino;
      assert IsFree(t.free, ino);
      forall i | i in t'.slots ensures !IsFree(t'.free, i) {
        if k :| 0 <= k < last && t.free[k].ino == i {
          assert i in t.slots ==> IsFree(t.free, i);
        }
      }
      forall i | 1 <= i < t'.nextIno ensures i in t'.slots || IsFree(t'.free, i) {
        if i != ino && i !in t.slots {
          var k :| 0 <= k < |t.free| && t.free[k].ino == i;
          assert t'.free[k].ino == i;
        }
      }
    }
  }

  /** The next issue carries the next generation of its inode. */
  lemma AllocIssuesNext<N>(t: Table<N>)
    requires Exact(t)
    ensures Alloc(t).0.generation == Generation(TimesIssued(t.log, Alloc(t).0.ino))
  {
    if t.free == [] {
      assert forall i | 0 <= i < |t.log| :: IssuedBelow(t.log[i], t.nextIno);
      NeverIssued(t.log, t.nextIno);
    }
  }

  lemma IssueOthers<N>(t: Table<N>, issue: Issue, log': seq<Issue>)
    requires Logged(t)
    requires log' == t.log + [issue]
    requires forall ino :: TimesIssued(log', ino) == TimesIssued(t.log, ino) + (if ino == issue.ino then 1 else 0)
    ensures forall ino | ino in t.slots && ino != issue.ino :: SlotNumbered(ino, t.slots[ino], log')
    ensures forall k | 0 <= k < |t.free| && t.free[k].ino != issue.ino ::
              t.free[k].generation == Generation(TimesIssued(log', t.free[k].ino))
  {
    forall ino | ino in t.slots && ino != issue.ino ensures SlotNumbered(ino, t.slots[ino], log') {
      assert SlotNumbered(ino, t.slots[ino], t.log);
      assert TimesIssued(log', ino) == TimesIssued(t.log, ino);
    }
  }

  /** What an insert does to the parts of the table. */
  lemma InsertedParts<N>(t: Table<N>, payload: N, parent: nat)
    requires Exact(t)
    ensures var (issue, t') := (Alloc(t).0, Insert(t, payload, parent).1);
            && issue.ino !in t.slots && 1 <= issue.ino < t'.nextIno && t.nextIno <= t'.nextIno
            && t'.log == t.log + [issue]
            && t'.slots == t.slots[issue.ino := Slot(payload, |t.log|, issue.generation, 1, 0, 0, 0, parent)]
            && |t'.free| <= |t.free|
            && forall k | 0 <= k < |t'.free| :: t'.free[k] == t.free[k] && t'.free[k].ino != issue.ino
  {
    hide Logged;
    InsertPartitions(t, payload, parent);
  }

  lemma IssuedBelowStays(log: seq<Issue>, nextIno: nat, issue: Issue, nextIno': nat)
    requires forall i {:trigger IssuedBelow(log[i], nextIno)} | 0 <= i < |log| :: IssuedBelow(log[i], nextIno)
    requires IssuedBelow(issue, nextIno') && nextIno <= nextIno'
    ensures forall i | 0 <= i < |log + [issue]| :: IssuedBelow((log + [issue])[i], nextIno')
  {
    forall i | 0 <= i < |log + [issue]| ensures IssuedBelow((log + [issue])[i], nextIno') {
      assert i < |log| ==> IssuedBelow(log[i], nextIno);
    }
  }

  lemma InsertLogs<N>(t: Table<N>, payload: N, parent: nat)
    requires Exact(t)
    ensures Logged(Insert(t, payload, parent).1)
  {
    hide Insert, Alloc, LogNumbered, TimesIssued, Generation, IssuedBelow, Partitioned;
    var (issue, t') := (Alloc(t).0, Insert(t, payload, parent).1);
    InsertedParts(t, payload, parent);
    AllocIssuesNext(t);
    IssueOneMore(t.log, issue);
    IssueOthers(t, issue, t'.log);
    assert IssuedBelow(issue, t'.nextIno) by { BoundsAreIssued(issue, t'.nextIno); }
    IssuedBelowStays(t.log, t.nextIno, issue, t'.nextIno);
    IssuedSlot(t.log, issue, t'.slots[issue.ino]);
  }

  lemma BoundsAreIssued(issue: Issue, nextIno: nat)
    requires 1 <= issue.ino < nextIno
    ensures IssuedBelow(issue, nextIno)
  {}

  lemma IssuedSlot<N>(log: seq<Issue>, issue: Issue, slot: Slot<N>)
    requires slot.record == |log| && slot.generation == issue.generation
    requires issue.generation == Generation(TimesIssued(log, issue.ino))
    requires TimesIssued(log + [issue], issue.ino) == TimesIssued(log, issue.ino) + 1
    ensures SlotNumbered(issue.ino, slot, log + [issue])
  {
    hide TimesIssued;
  }

  lemma InsertIsExact<N>(t: Table<N>, payload: N, parent: nat)
    requires Exact(t)
    ensures Exact(Insert(t, payload, parent).1)
    ensures Insert(t, payload, parent).0 !in t.slots
    ensures Stable(t, Insert(t, payload, parent).1)
  {
    InsertPartitions(t, payload, parent);
    InsertLogs(t, payload, parent);
  }

  lemma InsertAddsOne<N>(t: Table<N>, payload: N, parent: nat)
    requires Exact(t)
    ensures var (id, t') := Insert(t, payload, parent);
            && Exact(t') && id !in t.slots && id in t'.slots
            && t'.slots == t.slots[id := t'.slots[id]]
            && t'.slots[id] == Slot(payload, t'.slots[id].record, t'.slots[id].generation, 1, 0, 0, 0, parent)
  {
    InsertIsExact(t, payload, parent);
  }

  lemma DropPartitions<N>(t: Table<N>, ino: nat, issue: Issue)
    requires Partitioned(t) && ino in t.slots && issue.ino == ino
    ensures Partitioned(t.(slots := t.slots - {ino}, free := t.free + [issue]))
  {
    var t' := t.(slots := t.slots - {ino}, free := t.free + [issue]);
    assert t'.free[|t.free|].ino == ino;
    forall i | i in t'.slots ensures !IsFree(t'.free, i) {
      assert !IsFree(t.free, i);
      forall k | 0 <= k < |t'.free| ensures t'.free[k].ino != i {
        if k < |t.free| { assert t'.free[k] == t.free[k]; }
      }
    }
    forall j, k | 0 <= j < k < |t'.free| ensures t'.free[j].ino != t'.free[k].ino {
      assert t.free[j] == t'.free[j];
      assert !IsFree(t.free, ino);
    }
    forall i | 1 <= i < t'.nextIno ensures i in t'.slots || IsFree(t'.free, i) {
      if i != ino && i !in t.slots {
        var k :| 0 <= k < |t.free| && t.free[k].ino == i;
        assert t'.free[k].ino == i;
      }
    }
  }

  /** Storing new counts in a live slot, then reclaiming it if they are all zero. */
  lemma StoreThenDropIsExact<N>(t: Table<N>, ino: nat, slot: Slot<N>)
    requires Exact(t) && ino in t.slots
    requires slot.record == t.slots[ino].record && slot.generation == t.slots[ino].generation
    ensures var t' := MaybeDrop(Store(t, ino, slot), ino);
            && Exact(t') && Stable(t, t')
            && t'.slots == if slot.Droppable() then t.slots - {ino} else t.slots[ino := slot]
  {
    var t' := MaybeDrop(Store(t, ino, slot), ino);
    assert t'.log[..|t.log|] == t.log;
    assert SlotNumbered(ino, t.slots[ino], t.log);
    if slot.Droppable() {
      var issue := Issue(ino, NextGeneration(slot.generation));
      DropPartitions(t, ino, issue);
      assert t'.slots == t.slots - {ino};
      assert t' == t.(slots := t.slots - {ino}, free := t.free + [issue]);
    }
  }

  /** What taking one link away from a slot does to the table. */
  lemma LinkTaken<N>(t: Table<N>, id: nat)
    requires Exact(t) && id in t.slots && t.slots[id].links > 0
    ensures var t', slot := RemoveLink(t, id), t.slots[id].(links := t.slots[id].links - 1);
            Exact(t') && t'.slots == if slot.Droppable() then t.slots - {id} else t.slots[id := slot]
  {
    StoreThenDropIsExact(t, id, t.slots[id].(links := t.slots[id].links - 1));
  }

  // ---------- every history of a table ----------

  /** One call on the table. An absent inode leaves the table alone (`None`, `ENOENT` or a silent skip). */
  datatype Op<N> =
    | OpInsert(payload: N, parent: nat)
    | OpGet(ino: nat)
    | OpDropRef(r: NodeRef)
    | OpReparent(ino: nat, parent: nat)
    | OpAddLink(ino: nat)
    | OpRemoveLink(ino: nat)
    | OpLookup(ino: nat)
    | OpForget(ino: nat, count: nat)
    | OpAddOpen(ino: nat)
    | OpRemoveOpen(ino: nat)

  /** Lookups, forgets, opens, releases and leases: what the runtime itself does to a node. */
  predicate OnlyCounts<N>(op: Op<N>)
  {
    op.OpGet? || op.OpDropRef? || op.OpLookup? || op.OpForget? || op.OpAddOpen? || op.OpRemoveOpen?
  }

  function Apply<N>(t: Table<N>, op: Op<N>): Table<N>
  {
    match op
    case OpInsert(payload, parent) => Insert(t, payload, parent).1
    case OpGet(ino) => if ino in t.slots then Lease(t, ino) else t
    case OpDropRef(r) => Unlease(t, r)
    case OpReparent(ino, parent) => Reparent(t, ino, parent)
    case OpAddLink(ino) => AddLink(t, ino)
    case OpRemoveLink(ino) => RemoveLink(t, ino)
    case OpLookup(ino) => if ino in t.slots then Retain(t, ino) else t
    case OpForget(ino, count) => Forget(t, ino, count)
    case OpAddOpen(ino) => if ino in t.slots then AddOpen(t, ino) else t
    case OpRemoveOpen(ino) => RemoveOpen(t, ino)
  }

  function ApplyAll<N>(t: Table<N>, ops: seq<Op<N>>): Table<N>
  {
    if ops == [] then t else Apply(ApplyAll(t, ops[..|ops| - 1]), ops[|ops| - 1])
  }

  lemma StoreIsExact<N>(t: Table<N>, ino: nat, slot: Slot<N>)
    requires Exact(t) && ino in t.slots && !slot.Droppable()
    requires slot.record == t.slots[ino].record && slot.generation == t.slots[ino].generation
    ensures Exact(Store(t, ino, slot)) && Stable(t, Store(t, ino, slot))
  {
    StoreThenDropIsExact(t, ino, slot);
  }

  lemma LiveIsUsed<N>(t: Table<N>, ino: nat)
    requires Exact(t) && ino in t.slots
    ensures !t.slots[ino].Droppable()
  {}

  lemma SameIsStable<N>(t: Table<N>)
    ensures Stable(t, t)
  {}

  /** Reclamation is exact after every call, and a live inode never changes incarnation under its users. */
  lemma ApplyIsExact<N>(t: Table<N>, op: Op<N>)
    requires Exact(t)
    ensures Exact(Apply(t, op)) && Stable(t, Apply(t, op))
  {
    hide Exact, Stable;
    SameIsStable(t);
    match op
    case OpInsert(payload, parent) => InsertIsExact(t, payload, parent);
    case OpGet(ino) =>
      if ino in t.slots { StoreIsExact(t, ino, t.slots[ino].(leases := t.slots[ino].leases + 1)); }
    case OpDropRef(r) =>
      if t.Current(r) {
        StoreThenDropIsExact(t, r.ino, t.slots[r.ino].(leases := SaturatingSub(t.slots[r.ino].leases, 1)));
      } else if r.ino in t.slots {
        LiveIsUsed(t, r.ino);
      }
    case OpReparent(ino, parent) =>
      if ino in t.slots {
        LiveIsUsed(t, ino);
        StoreIsExact(t, ino, t.slots[ino].(parent := parent));
      }
    case OpAddLink(ino) =>
      if ino in t.slots { StoreIsExact(t, ino, t.slots[ino].(links := t.slots[ino].links + 1)); }
    case OpRemoveLink(ino) =>
      if ino in t.slots {
        StoreThenDropIsExact(t, ino, t.slots[ino].(links := SaturatingSub(t.slots[ino].links, 1)));
      }
    case OpLookup(ino) =>
      if ino in t.slots { StoreIsExact(t, ino, t.slots[ino].(lookups := t.slots[ino].lookups + 1)); }
    case OpForget(ino, count) =>
      if ino in t.slots {
        StoreThenDropIsExact(t, ino, t.slots[ino].(lookups := SaturatingSub(t.slots[ino].lookups, count)));
      }
    case OpAddOpen(ino) =>
      if ino in t.slots { StoreIsExact(t, ino, t.slots[ino].(opens := t.slots[ino].opens + 1)); }
    case OpRemoveOpen(ino) =>
      if ino in t.slots {
        StoreThenDropIsExact(t, ino, t.slots[ino].(opens := SaturatingSub(t.slots[ino].opens, 1)));
      }
  }

  /** From a fresh table, every sequence of calls leaves live and free inodes partitioning `[1, nextIno)`. */
  lemma {:induction false} ReclamationIsExact<N>(root: N, ops: seq<Op<N>>)
    ensures Exact(ApplyAll(Initial(root), ops))
  {
    if ops == [] {
      InitialIsExact(root);
    } else {
      ReclamationIsExact(root, ops[..|ops| - 1]);
      ApplyIsExact(ApplyAll(Initial(root), ops[..|ops| - 1]), ops[|ops| - 1]);
    }
  }

  lemma {:induction false} GenerationWraps(k: nat)
    ensures Generation(k) == k % GENERATIONS
  {
    if k > 0 { GenerationWraps(k - 1); }
  }

  lemma {:induction false} NumberedAt(log: seq<Issue>, i: nat)
    requires LogNumbered(log) && i < |log|
    ensures log[i].generation == Generation(TimesIssued(log[..i], log[i].ino))
  {
    var before := log[..|log| - 1];
    if i < |before| {
      NumberedAt(before, i);
      assert before[..i] == log[..i];
    }
  }

  lemma {:induction false} TimesIssuedGrows(log: seq<Issue>, i: nat, j: nat, ino: nat)
    requires i <= j <= |log|
    ensures TimesIssued(log[..i], ino) <= TimesIssued(log[..j], ino) <= TimesIssued(log[..i], ino) + (j - i)
    ensures i < j && log[i].ino == ino ==> TimesIssued(log[..i], ino) < TimesIssued(log[..j], ino)
    decreases j
  {
    if i < j {
      assert log[..j][..j - 1] == log[..j - 1];
      TimesIssuedGrows(log, i, j - 1, ino);
    }
  }

  lemma OrdinalsDecideGenerations(log: seq<Issue>, i: nat, j: nat)
    requires LogNumbered(log) && i < j < |log| && log[i].ino == log[j].ino
    ensures var a, b := TimesIssued(log[..i], log[i].ino), TimesIssued(log[..j], log[j].ino);
            && a < b <= j
            && log[i].generation == a % GENERATIONS && log[j].generation == b % GENERATIONS
  {
    NumberedAt(log, i);
    NumberedAt(log, j);
    TimesIssuedGrows(log, i, j, log[i].ino);
    TimesIssuedGrows(log, 0, j, log[i].ino);
    GenerationWraps(TimesIssued(log[..i], log[i].ino));
    GenerationWraps(TimesIssued(log[..j], log[j].ino));
  }

  /**
   * Two issues of one inode carry the same generation if and only if the number of issues of
   * that inode between them is a multiple of the counter's width. So no (inode, generation)
   * pair repeats before the 64-bit wrap.
   */
  ghost predicate RepeatsOnlyAtTheWrap(log: seq<Issue>, i: nat, j: nat)
    requires i < j < |log|
  {
    var between := TimesIssued(log[..j], log[j].ino) - TimesIssued(log[..i], log[i].ino);
    && between > 0
    && (log[i] == log[j] <==> between % GENERATIONS == 0)
    && (TimesIssued(log[..j], log[j].ino) < GENERATIONS ==> log[i].generation < log[j].generation)
    && (log[i] == log[j] ==> |log| > GENERATIONS)
  }

  lemma NumberedLogsRepeatOnlyAtTheWrap(log: seq<Issue>, i: nat, j: nat)
    requires LogNumbered(log) && i < j < |log| && log[i].ino == log[j].ino
    ensures RepeatsOnlyAtTheWrap(log, i, j)
  {
    hide TimesIssued, Generation, LogNumbered;
    OrdinalsDecideGenerations(log, i, j);
    SameResidue(TimesIssued(log[..i], log[i].ino), TimesIssued(log[..j], log[j].ino));
  }

  lemma ExactLogsAreNumbered<N>(t: Table<N>)
    requires Exact(t)
    ensures LogNumbered(t.log)
  {}

  lemma PairsRepeatOnlyAtTheWrap<N>(root: N, ops: seq<Op<N>>, i: nat, j: nat)
    requires i < j < |ApplyAll(Initial(root), ops).log|
    requires var log := ApplyAll(Initial(root), ops).log; log[i].ino == log[j].ino
    ensures RepeatsOnlyAtTheWrap(ApplyAll(Initial(root), ops).log, i, j)
  {
    hide Apply, ApplyAll, Exact, LogNumbered, RepeatsOnlyAtTheWrap;
    ReclamationIsExact(root, ops);
    ExactLogsAreNumbered(ApplyAll(Initial(root), ops));
    NumberedLogsRepeatOnlyAtTheWrap(ApplyAll(Initial(root), ops).log, i, j);
  }

  lemma SameResidue(a: nat, b: nat)
    requires a < b
    ensures a % GENERATIONS == b % GENERATIONS <==> (b - a) % GENERATIONS == 0
    ensures a % GENERATIONS == b % GENERATIONS ==> b >= GENERATIONS
    ensures b < GENERATIONS ==> a % GENERATIONS < b % GENERATIONS
  {}

  // ---------- the table, updated in place ----------

  const U32_MAX: nat := 0xFFFF_FFFF
  const U64_MAX: nat := 0xFFFF_FFFF_FFFF_FFFF

  /** `NodeTable` behind its mutex; each method is one critical section. A `requires` bound is an overflow panic. */
  class NodeTable<N> {
    var slots: map<nat, Slot<N>>
    var nextIno: nat
    var free: seq<Issue>
    /** The address of the next `Arc<NodeRecord>`: one per issue. */
    var nextRecord: nat
    ghost var log: seq<Issue>

    ghost function Value(): Table<N>
      reads this
    {
      Table(slots, nextIno, free, log)
    }

    ghost predicate Valid()
      reads this
    {
      Exact(Value()) && nextRecord == |log|
    }

    constructor (root: N)
      ensures Valid() && Value() == Initial(root)
    {
      slots := map[ROOT := Slot(root, 0, 0, 1, 0, 0, 0, ROOT)];
      nextIno := 2;
      free := [];
      nextRecord := 1;
      log := [Issue(ROOT, 0)];
      new;
      InitialIsExact(root);
    }

    method TakeIno() returns (issue: Issue)
      requires free == [] ==> nextIno < U64_MAX
      modifies this`nextIno, this`free
      ensures (issue, Value()) == Alloc(old(Value()))
    {
      if |free| > 0 {
        issue := free[|free| - 1];
        free := free[..|free| - 1];
      } else {
        issue := Issue(nextIno, 0);
        nextIno := nextIno + 1;
      }
    }

    method DropIfUnused(ino: nat)
      modifies this`slots, this`free
      ensures Value() == MaybeDrop(old(Value()), ino)
    {
      if ino in slots && slots[ino].Droppable() {
        var generation := slots[ino].generation;
        slots := slots - {ino};
        free := free + [Issue(ino, NextGeneration(generation))];
      }
    }

    method Get(ino: nat) returns (r: Option<NodeRef>)
      requires Valid()
      requires ino in slots ==> slots[ino].leases < U32_MAX
      modifies this
      ensures Valid() && Value() == Apply(old(Value()), OpGet(ino))
      ensures r == if ino in old(slots) then Some(old(Value()).RefOf(ino)) else None
    {
      hide Exact;
      ApplyIsExact(Value(), OpGet(ino));
      if ino !in slots { return None; }
      r := Some(NodeRef(ino, slots[ino].record));
      slots := slots[ino := slots[ino].(leases := slots[ino].leases + 1)];
    }

    method DropRef(r: NodeRef)
      requires Valid()
      modifies this
      ensures Valid() && Value() == Apply(old(Value()), OpDropRef(r))
    {
      hide Exact;
      ApplyIsExact(Value(), OpDropRef(r));
      if r.ino in slots && slots[r.ino].record == r.record {
        slots := slots[r.ino := slots[r.ino].(leases := SaturatingSub(slots[r.ino].leases, 1))];
      }
      DropIfUnused(r.ino);
    }

    method InsertNode(payload: N, parent: nat) returns (ino: nat)
      requires Valid() && (free == [] ==> nextIno < U64_MAX)
      modifies this
      ensures Valid() && Value() == Apply(old(Value()), OpInsert(payload, parent))
      ensures ino == Insert(old(Value()), payload, parent).0
    {
      hide Exact;
      ApplyIsExact(Value(), OpInsert(payload, parent));
      var issue := TakeIno();
      ino := issue.ino;
      slots := slots[ino := Slot(payload, nextRecord, issue.generation, 1, 0, 0, 0, parent)];
      nextRecord := nextRecord + 1;
      log := log + [issue];
    }

    method SetParent(ino: nat, parent: nat)
      requires Valid()
      modifies this
      ensures Valid() && Value() == Apply(old(Value()), OpReparent(ino, parent))
    {
      hide Exact;
      ApplyIsExact(Value(), OpReparent(ino, parent));
      if ino in slots {
        slots := slots[ino := slots[ino].(parent := parent)];
      }
    }

    method Link(ino: nat)
      requires Valid()
      requires ino in slots ==> slots[ino].links < U32_MAX
      modifies this
      ensures Valid() && Value() == Apply(old(Value()), OpAddLink(ino))
    {
      hide Exact;
      ApplyIsExact(Value(), OpAddLink(ino));
      if ino in slots {
        slots := slots[ino := slots[ino].(links := slots[ino].links + 1)];
      }
    }

    method Unlink(ino: nat)
      requires Valid()
      modifies this
      ensures Valid() && Value() == Apply(old(Value()), OpRemoveLink(ino))
    {
      hide Exact;
      ApplyIsExact(Value(), OpRemoveLink(ino));
      if ino in slots {
        slots := slots[ino := slots[ino].(links := SaturatingSub(slots[ino].links, 1))];
      }
      DropIfUnused(ino);
    }

    /** `retain_lookup`. */
    method RetainLookup(ino: nat) returns (found: bool)
      requires Valid()
      requires ino in slots ==> slots[ino].lookups < U64_MAX
      modifies this
      ensures Valid() && Value() == Apply(old(Value()), OpLookup(ino))
      ensures found == (ino in old(slots))
    {
      hide Exact;
      ApplyIsExact(Value(), OpLookup(ino));
      found := ino in slots;
      if found {
        slots := slots[ino := slots[ino].(lookups := slots[ino].lookups + 1)];
      }
    }

    method ForgetLookups(ino: nat, count: nat)
      requires Valid()
      modifies this
      ensures Valid() && Value() == Apply(old(Value()), OpForget(ino, count))
    {
      hide Exact;
      ApplyIsExact(Value(), OpForget(ino, count));
      if ino in slots {
        slots := slots[ino := slots[ino].(lookups := SaturatingSub(slots[ino].lookups, count))];
      }
      DropIfUnused(ino);
    }

    /** `add_open`. */
    method CountOpen(ino: nat) returns (found: bool)
      requires Valid()
      requires ino in slots ==> slots[ino].opens < U32_MAX
      modifies this
      ensures Valid() && Value() == Apply(old(Value()), OpAddOpen(ino))
      ensures found == (ino in old(slots))
    {
      hide Exact;
      ApplyIsExact(Value(), OpAddOpen(ino));
      found := ino in slots;
      if found {
        slots := slots[ino := slots[ino].(opens := slots[ino].opens + 1)];
      }
    }

    /** `remove_open`. */
    method UncountOpen(ino: nat)
      requires Valid()
      modifies this
      ensures Valid() && Value() == Apply(old(Value()), OpRemoveOpen(ino))
    {
      hide Exact;
      ApplyIsExact(Value(), OpRemoveOpen(ino));
      if ino in slots {
        slots := slots[ino := slots[ino].(opens := SaturatingSub(slots[ino].opens, 1))];
      }
      DropIfUnused(ino);
    }
  }
}
