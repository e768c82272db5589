/** The invariant of the runtime holds in every state of every interleaving, and what follows from it. */
module RuntimeProofs {
  import opened Base
  import opened Nodes
  import opened Handles
  import opened Runtime

  // ---------- counting ----------

  lemma {:induction false} SumUpdate(threads: seq<Pc>, i: nat, pc: Pc, m: Metric)
    requires i < |threads|
    ensures Sum(threads[i := pc], m) + Weight(m, threads[i]) == Sum(threads, m) + Weight(m, pc)
  {
    hide Weight;
    var n := |threads| - 1;
    assert threads[i := pc][..n] == if i < n then threads[..n][i := pc] else threads[..n];
    if i < n { SumUpdate(threads[..n], i, pc, m); }
  }

  lemma Moved(threads: seq<Pc>, i: nat, pc: Pc)
    requires i < |threads|
    ensures forall m :: Sum(threads[i := pc], m) + Weight(m, threads[i]) == Sum(threads, m) + Weight(m, pc)
  {
    hide Sum;
    forall m ensures Sum(threads[i := pc], m) + Weight(m, threads[i]) == Sum(threads, m) + Weight(m, pc) {
      SumUpdate(threads, i, pc, m);
    }
  }

  lemma SumCovers(threads: seq<Pc>, i: nat, m: Metric)
    requires i < |threads|
    ensures Sum(threads, m) >= Weight(m, threads[i])
  {
    hide Sum;
    SumUpdate(threads, i, Idle, m);
  }

  lemma SumCoversTwo(threads: seq<Pc>, i: nat, j: nat, m: Metric)
    requires i < |threads| && j < |threads| && i != j
    ensures Sum(threads, m) >= Weight(m, threads[i]) + Weight(m, threads[j])
  {
    hide Sum;
    SumUpdate(threads, i, Idle, m);
    SumCovers(threads[i := Idle], j, m);
  }

  lemma {:induction false} SomeoneWeighs(threads: seq<Pc>, m: Metric) returns (j: nat)
    requires Sum(threads, m) > 0
    ensures j < |threads| && Weight(m, threads[j]) > 0
  {
    hide Weight;
    j := |threads| - 1;
    if Weight(m, threads[j]) == 0 {
      j := SomeoneWeighs(threads[..j], m);
    }
  }

  lemma {:induction false} WeighsNothing(threads: seq<Pc>, m: Metric)
    requires forall j | 0 <= j < |threads| :: Weight(m, threads[j]) == 0
    ensures Sum(threads, m) == 0
  {
    hide Weight;
    if threads != [] { WeighsNothing(threads[..|threads| - 1], m); }
  }

  lemma {:induction false} TabledUpdate(records: seq<Record>, fh: nat, record: Record, r: NodeRef)
    requires fh < |records|
    ensures Tabled(records[fh := record], r) + (if records[fh].tabled && records[fh].node == r then 1 else 0)
         == Tabled(records, r) + (if record.tabled && record.node == r then 1 else 0)
  {
    var n := |records| - 1;
    assert records[fh := record][..n] == if fh < n then records[..n][fh := record] else records[..n];
    if fh < n { TabledUpdate(records[..n], fh, record, r); }
  }

  lemma Retabled(records: seq<Record>, fh: nat, record: Record)
    requires fh < |records|
    ensures forall r ::
              Tabled(records[fh := record], r) + (if records[fh].tabled && records[fh].node == r then 1 else 0)
              == Tabled(records, r) + (if record.tabled && record.node == r then 1 else 0)
  {
    forall r ensures Tabled(records[fh := record], r) + (if records[fh].tabled && records[fh].node == r then 1 else 0)
                  == Tabled(records, r) + (if record.tabled && record.node == r then 1 else 0) {
      TabledUpdate(records, fh, record, r);
    }
  }

  lemma TabledAppend(records: seq<Record>, record: Record, r: NodeRef)
    ensures Tabled(records + [record], r) == Tabled(records, r) + (if record.tabled && record.node == r then 1 else 0)
  {
    assert (records + [record])[..|records|] == records;
  }

  // ---------- what a critical section of the table does to the counters ----------

  function CountIn(slot: Slot<()>, c: Counter): nat
  {
    match c
    case Leases => slot.leases
    case Opens => slot.opens
    case Lookups => slot.lookups
  }

  lemma StoredCounts(t: Table<()>, ino: nat, slot: Slot<()>)
    requires Exact(t) && ino in t.slots
    requires slot.record == t.slots[ino].record && slot.generation == t.slots[ino].generation
    ensures var t' := MaybeDrop(Store(t, ino, slot), ino);
            && Exact(t') && Stable(t, t')
            && forall c, r :: On(t', c, r) == if r == t.RefOf(ino) then CountIn(slot, c) else On(t, c, r)
  {
    StoreThenDropIsExact(t, ino, slot);
  }

  /** A table `t'` reached from `t` by moving one counter of one incarnation by `delta`. */
  ghost predicate Counted(t: Table<()>, t': Table<()>, c0: Counter, r0: NodeRef, delta: int)
  {
    && Exact(t') && Stable(t, t')
    && forall c, r :: On(t', c, r) == On(t, c, r) + (if c == c0 && r == r0 then delta else 0)
  }

  lemma LeaseCounts(t: Table<()>, ino: nat)
    requires Exact(t) && ino in t.slots
    ensures Counted(t, Lease(t, ino), Leases, t.RefOf(ino), 1)
  {
    StoredCounts(t, ino, Lease(t, ino).slots[ino]);
  }

  lemma UnleaseCounts(t: Table<()>, r: NodeRef)
    requires Exact(t) && On(t, Leases, r) > 0
    ensures Counted(t, Unlease(t, r), Leases, r, -1)
  {
    StoredCounts(t, r.ino, t.slots[r.ino].(leases := SaturatingSub(t.slots[r.ino].leases, 1)));
  }

  lemma OpenCounts(t: Table<()>, ino: nat)
    requires Exact(t) && ino in t.slots
    ensures Counted(t, AddOpen(t, ino), Opens, t.RefOf(ino), 1)
  {
    StoredCounts(t, ino, AddOpen(t, ino).slots[ino]);
  }

  lemma CloseCounts(t: Table<()>, r: NodeRef)
    requires Exact(t) && On(t, Opens, r) > 0
    ensures Counted(t, RemoveOpen(t, r.ino), Opens, r, -1)
  {
    StoredCounts(t, r.ino, t.slots[r.ino].(opens := SaturatingSub(t.slots[r.ino].opens, 1)));
  }

  lemma RetainCounts(t: Table<()>, ino: nat)
    requires Exact(t) && ino in t.slots
    ensures Counted(t, Retain(t, ino), Lookups, t.RefOf(ino), 1)
  {
    StoredCounts(t, ino, Retain(t, ino).slots[ino]);
  }

  lemma ForgetCounts(t: Table<()>, r: NodeRef, n: nat)
    requires Exact(t) && On(t, Lookups, r) >= n > 0
    ensures Counted(t, Forget(t, r.ino, n), Lookups, r, 0 - n)
  {
    StoredCounts(t, r.ino, t.slots[r.ino].(lookups := SaturatingSub(t.slots[r.ino].lookups, n)));
  }

  // ---------- frames ----------

  /** A step of thread `i` that leaves the handle records alone. */
  ghost predicate Grown(t: Table<()>, t': Table<()>)
  {
    |t.log| <= |t'.log| && t'.log[..|t.log|] == t.log
  }

  ghost predicate TableStep(s: State, s': State, i: nat, pc: Pc)
    requires i < |s.threads|
  {
    && s'.threads == s.threads[i := pc] && s'.records == s.records
    && Exact(s'.table) && Grown(s.table, s'.table)
    && LentTo(pc) == LentTo(s.threads[i]) && TakerOf(pc) == TakerOf(s.threads[i])
  }

  lemma TableStepKeeps(s: State, s': State, i: nat, pc: Pc)
    requires Inv(s) && i < |s.threads| && TableStep(s, s', i, pc)
    requires Balanced(s') && ThreadOk(s', pc)
    requires RecordOf(pc).Some? && RecordOf(s.threads[i]) != RecordOf(pc) ==>
               RecordOf(pc).value < |s.records| && s.records[RecordOf(pc).value].tabled
    requires s.threads[i].RelWait? ==> pc == s.threads[i]
    ensures Inv(s')
  {
    hide Exact, Balanced, Sum;
    Moved(s.threads, i, pc);
    forall fh | 0 <= fh < |s'.records| ensures RecordOk(s', fh) {
      assert RecordOk(s, fh);
      assert Sum(s'.threads, Lent(fh)) == Sum(s.threads, Lent(fh));
      assert Sum(s'.threads, Taking(fh)) == Sum(s.threads, Taking(fh));
      assert Sum(s'.threads, Refers(fh)) + Weight(Refers(fh), s.threads[i]) ==
             Sum(s.threads, Refers(fh)) + Weight(Refers(fh), pc);
    }
    forall j | 0 <= j < |s'.threads| ensures ThreadOk(s', s'.threads[j]) {
      if j != i {
        assert ThreadOk(s, s.threads[j]);
        EntriesStay(s.table, s'.table);
      }
    }
  }

  lemma EntriesStay(t: Table<()>, t': Table<()>)
    requires Grown(t, t')
    ensures forall e | EntryOk(t, e) :: EntryOk(t', e)
  {
    forall e | EntryOk(t, e) ensures EntryOk(t', e) {
      assert t'.log[e.record] == t'.log[..|t.log|][e.record];
    }
  }

  /** References moved by `delta` along with the counter they stand for. */
  lemma Rebalance(s: State, s': State, i: nat, pc: Pc, c0: Counter, r0: NodeRef, delta: int)
    requires Balanced(s) && i < |s.threads| && s'.threads == s.threads[i := pc]
    requires Counted(s.table, s'.table, c0, r0, delta)
    requires forall c, r :: Weight(Counts(c, r), pc) + Outside(s', c, r) ==
                            Weight(Counts(c, r), s.threads[i]) + Outside(s, c, r) +
                              (if c == c0 && r == r0 then delta else 0)
    ensures Balanced(s')
    ensures Exact(s'.table) && Grown(s.table, s'.table)
  {
    Moved(s.threads, i, pc);
    forall c, r ensures On(s'.table, c, r) == Sum(s'.threads, Counts(c, r)) + Outside(s', c, r) {
      assert On(s.table, c, r) == Sum(s.threads, Counts(c, r)) + Outside(s, c, r);
      assert Sum(s'.threads, Counts(c, r)) + Weight(Counts(c, r), s.threads[i])
          == Sum(s.threads, Counts(c, r)) + Weight(Counts(c, r), pc);
    }
  }

  /** A thread's own reference is counted, hence current. */
  lemma Pinned(s: State, i: nat, c: Counter, r: NodeRef)
    requires Inv(s) && i < |s.threads| && Weight(Counts(c, r), s.threads[i]) > 0
    ensures On(s.table, c, r) > 0 && s.table.Current(r)
  {
    SumCovers(s.threads, i, Counts(c, r));
    assert On(s.table, c, r) == Sum(s.threads, Counts(c, r)) + Outside(s, c, r);
  }

  const NOWHERE := NodeRef(0, 0)

  lemma Unchanged(t: Table<()>)
    requires Exact(t)
    ensures Counted(t, t, Leases, NOWHERE, 0)
  {}

  // ---------- each step keeps the invariant ----------

  lemma StartOpenKeeps(s: State, i: nat, kind: Kind, ino: nat)
    requires Inv(s) && i < |s.threads| && s.threads[i].Idle?
    ensures Inv(Start(s, i, StartOpen(kind, ino)))
  {
    hide Exact, Balanced, RecordOk, Counted, Sum, Tabled, On, Lease;
    var s' := Start(s, i, StartOpen(kind, ino));
    if ino in s.table.slots {
      LeaseCounts(s.table, ino);
      Rebalance(s, s', i, s'.threads[i], Leases, s.table.RefOf(ino), 1);
      TableStepKeeps(s, s', i, s'.threads[i]);
    }
  }

  lemma StartUseKeeps(s: State, i: nat, kind: Kind, ino: nat, fh: nat, plus: bool)
    requires Inv(s) && i < |s.threads| && s.threads[i].Idle?
    ensures Inv(Start(s, i, StartUse(kind, ino, fh, plus)))
  {
    hide Exact, Balanced, RecordOk, Counted, Sum, Tabled, On, Lease;
    var s' := Start(s, i, StartUse(kind, ino, fh, plus));
    if ino in s.table.slots && (plus ==> kind == Dir) {
      LeaseCounts(s.table, ino);
      Rebalance(s, s', i, s'.threads[i], Leases, s.table.RefOf(ino), 1);
      TableStepKeeps(s, s', i, s'.threads[i]);
    }
  }

  lemma StartEntryKeeps(s: State, i: nat, ino: nat, create: bool)
    requires Inv(s) && i < |s.threads| && s.threads[i].Idle?
    ensures Inv(Start(s, i, StartEntry(ino, create)))
  {
    hide Inv;
    var s' := Start(s, i, StartEntry(ino, create));
    QuietKeeps(s, s', i, s'.threads[i]);
  }

  lemma StartKeeps(s: State, i: nat, a: Action)
    requires Inv(s) && i < |s.threads| && s.threads[i].Idle? && !a.StartRelease?
    ensures Inv(Start(s, i, a))
  {
    hide Inv;
    match a
    case StartOpen(kind, ino) => StartOpenKeeps(s, i, kind, ino);
    case StartUse(kind, ino, fh, plus) => StartUseKeeps(s, i, kind, ino, fh, plus);
    case StartEntry(ino, create) => StartEntryKeeps(s, i, ino, create);
    case _ =>
  }

  lemma OpenCountKeeps(s: State, i: nat)
    requires Inv(s) && i < |s.threads| && s.threads[i].OpenCount?
    ensures Inv(ContinueOpen(s, i)) && OpenOf(ContinueOpen(s, i).threads[i]).Some?
  {
    hide Exact, Balanced, RecordOk, Counted, Sum, Tabled, On, Lease, Unlease, AddOpen, RemoveOpen, Retain, Forget;
    var s' := ContinueOpen(s, i);
    var r := s.threads[i].r;
    Pinned(s, i, Leases, r);
    OpenCounts(s.table, r.ino);
    Rebalance(s, s', i, s'.threads[i], Opens, r, 1);
    TableStepKeeps(s, s', i, s'.threads[i]);
  }

  lemma DroppingKeeps(s: State, i: nat)
    requires Inv(s) && i < |s.threads| && s.threads[i].Dropping?
    ensures Inv(ContinueOpen(s, i))
  {
    hide Exact, Balanced, RecordOk, Counted, Sum, Tabled, On, Lease, Unlease, AddOpen, RemoveOpen, Retain, Forget;
    var s' := ContinueOpen(s, i);
    var r := s.threads[i].r;
    Pinned(s, i, Leases, r);
    UnleaseCounts(s.table, r);
    Rebalance(s, s', i, s'.threads[i], Leases, r, -1);
    TableStepKeeps(s, s', i, s'.threads[i]);
  }

  lemma CreateCountKeeps(s: State, i: nat)
    requires Inv(s) && i < |s.threads| && s.threads[i].CreateCount?
    ensures Inv(ContinueOpen(s, i)) && OpenOf(ContinueOpen(s, i).threads[i]).Some?
  {
    hide Exact, Balanced, RecordOk, Counted, Sum, Tabled, On, Lease, Unlease, AddOpen, RemoveOpen, Retain, Forget;
    var s' := ContinueOpen(s, i);
    var entry := s.threads[i].entry;
    Pinned(s, i, Lookups, entry.Ref());
    OpenCounts(s.table, entry.ino);
    Rebalance(s, s', i, s'.threads[i], Opens, entry.Ref(), 1);
    EntriesStay(s.table, s'.table);
    assert ThreadOk(s, s.threads[i]);
    TableStepKeeps(s, s', i, s'.threads[i]);
  }

  /** The steps of open and create that count an open, and the drop of the node's lease. */
  lemma OpenKeeps(s: State, i: nat)
    requires Inv(s) && i < |s.threads|
    requires s.threads[i].OpenCount? || s.threads[i].Dropping? || s.threads[i].CreateCount?
    ensures Inv(ContinueOpen(s, i))
    ensures !s.threads[i].Dropping? ==> OpenOf(ContinueOpen(s, i).threads[i]).Some?
  {
    hide Inv, ContinueOpen;
    match s.threads[i]
    case OpenCount(_, _) => OpenCountKeeps(s, i);
    case Dropping(_) => DroppingKeeps(s, i);
    case CreateCount(_) => CreateCountKeeps(s, i);
  }

  lemma LiveSlotIsLogged(t: Table<()>, ino: nat)
    requires Exact(t) && ino in t.slots
    ensures SlotNumbered(ino, t.slots[ino], t.log)
  {}

  lemma EntryGetKeeps(s: State, i: nat)
    requires Inv(s) && i < |s.threads| && s.threads[i].EntryGet?
    ensures Inv(ContinueEntry(s, i))
  {
    hide Exact, Balanced, RecordOk, Counted, Sum, Tabled, On, Lease, Unlease, AddOpen, RemoveOpen, Retain, Forget;
    var s' := ContinueEntry(s, i);
    var ino := s.threads[i].ino;
    if ino in s.table.slots {
      LeaseCounts(s.table, ino);
      Rebalance(s, s', i, s'.threads[i], Leases, s.table.RefOf(ino), 1);
    } else {
      Unchanged(s.table);
      Rebalance(s, s', i, s'.threads[i], Leases, NOWHERE, 0);
    }
    TableStepKeeps(s, s', i, s'.threads[i]);
  }

  /** The generation is read from the incarnation whose attributes were read. */
  lemma EntryCountKeeps(s: State, i: nat)
    requires Inv(s) && i < |s.threads| && s.threads[i].EntryCount?
    ensures Inv(ContinueEntry(s, i))
    ensures ContinueEntry(s, i).threads[i].EntryDrop?
  {
    hide Exact, Balanced, RecordOk, Counted, Sum, Tabled, On, Lease, Unlease, AddOpen, RemoveOpen, Retain, Forget;
    var s' := ContinueEntry(s, i);
    var pc, r := s'.threads[i], s.threads[i].r;
    assert ThreadOk(s, s.threads[i]);
    Pinned(s, i, Leases, r);
    RetainCounts(s.table, r.ino);
    assert pc.entry.Ref() == r;
    Rebalance(s, s', i, pc, Lookups, r, 1);
    LiveSlotIsLogged(s.table, r.ino);
    EntriesStay(s.table, s'.table);
    TableStepKeeps(s, s', i, pc);
  }

  lemma EntryDropKeeps(s: State, i: nat)
    requires Inv(s) && i < |s.threads| && s.threads[i].EntryDrop?
    ensures Inv(ContinueEntry(s, i))
  {
    hide Inv, Exact, Balanced, Counted, Weight, Outside, Sum, On, Unlease;
    var s' := ContinueEntry(s, i);
    var before, pc, r := s.threads[i], s'.threads[i], s.threads[i].r;
    InvParts(s);
    ThreadIsOk(s, i);
    LeaseIsWeighed(before, r);
    Pinned(s, i, Leases, r);
    UnleaseCounts(s.table, r);
    forall c, r1
      ensures Weight(Counts(c, r1), pc) + Outside(s', c, r1)
              == Weight(Counts(c, r1), before) + Outside(s, c, r1) + (if c == Leases && r1 == r then -1 else 0)
    {
      UnleaseWeights(s, s', before, pc, r, c, r1);
    }
    Rebalance(s, s', i, pc, Leases, r, -1);
    EntriesStay(s.table, s'.table);
    TableStepKeeps(s, s', i, pc);
  }

  lemma LeaseIsWeighed(pc: Pc, r: NodeRef)
    requires LeaseOf(pc) == Some(r)
    ensures Weight(Counts(Leases, r), pc) > 0
  {}

  lemma UnleaseWeights(s: State, s': State, before: Pc, pc: Pc, r0: NodeRef, c: Counter, r: NodeRef)
    requires s'.fsRefs == s.fsRefs && s'.records == s.records && s'.kernel == s.kernel
    requires LeaseOf(before) == Some(r0) && LeaseOf(pc) == None
    requires OpenOf(pc) == OpenOf(before) && LookupsOf(pc) == LookupsOf(before)
    ensures Weight(Counts(c, r), pc) + Outside(s', c, r)
            == Weight(Counts(c, r), before) + Outside(s, c, r) + (if c == Leases && r == r0 then -1 else 0)
  {
    hide LeaseOf, OpenOf, LookupsOf, Tabled;
  }

  lemma FirstThenRest(list: seq<NodeRef>)
    requires list != []
    ensures forall r :: multiset(list)[r] == multiset(list[1..])[r] + (if r == list[0] then 1 else 0)
  {
    assert list == [list[0]] + list[1..];
  }

  lemma RetainLiveKeeps(s: State, i: nat)
    requires Inv(s) && i < |s.threads| && s.threads[i].PlusRetain? && s.threads[i].ino in s.table.slots
    ensures Inv(ContinueUse(s, i))
  {
    hide Inv, Exact, Balanced, Counted, Weight, Outside, Sum, RecordOk, Tabled, Retain, On;
    var s' := ContinueUse(s, i);
    var before, pc, r0 := s.threads[i], s'.threads[i], s.table.RefOf(s.threads[i].ino);
    InvParts(s);
    ThreadIsOk(s, i);
    RetainCounts(s.table, before.ino);
    forall c, r
      ensures Weight(Counts(c, r), pc) + Outside(s', c, r)
              == Weight(Counts(c, r), before) + Outside(s, c, r) + (if c == Lookups && r == r0 then 1 else 0)
    {
      RetainWeights(s, s', before, pc, r0, c, r);
    }
    Rebalance(s, s', i, pc, Lookups, r0, 1);
    TableStepKeeps(s, s', i, pc);
  }

  lemma RetainMissingKeeps(s: State, i: nat)
    requires Inv(s) && i < |s.threads| && s.threads[i].PlusRetain? && s.threads[i].ino !in s.table.slots
    ensures Inv(ContinueUse(s, i))
  {
    hide Inv;
    var s' := ContinueUse(s, i);
    ThreadIsOk(s, i);
    QuietKeeps(s, s', i, s'.threads[i]);
  }

  lemma RetainKeeps(s: State, i: nat)
    requires Inv(s) && i < |s.threads| && s.threads[i].PlusRetain?
    ensures Inv(ContinueUse(s, i))
  {
    hide Inv, ContinueUse;
    if s.threads[i].ino in s.table.slots { RetainLiveKeeps(s, i); } else { RetainMissingKeeps(s, i); }
  }

  lemma RetainWeights(s: State, s': State, before: Pc, pc: Pc, r0: NodeRef, c: Counter, r: NodeRef)
    requires s'.fsRefs == s.fsRefs && s'.records == s.records && s'.kernel == s.kernel
    requires LeaseOf(pc) == LeaseOf(before) && OpenOf(pc) == OpenOf(before)
    requires LookupsOf(pc) == LookupsOf(before) + multiset{r0}
    ensures Weight(Counts(c, r), pc) + Outside(s', c, r)
            == Weight(Counts(c, r), before) + Outside(s, c, r) + (if c == Lookups && r == r0 then 1 else 0)
  {
    hide LeaseOf, OpenOf, LookupsOf, Tabled;
  }

  lemma ForgetOneKeeps(s: State, s': State, i: nat, pc: Pc, accepted: seq<NodeRef>)
    requires Inv(s) && i < |s.threads| && ThreadOk(s, pc) && accepted != []
    requires LookupsOf(s.threads[i]) == multiset(accepted) && LookupsOf(pc) == multiset(accepted[1..])
    requires s' == s.At(i, pc).(table := Forget(s.table, accepted[0].ino, 1))
    requires LeaseOf(pc) == LeaseOf(s.threads[i]) && OpenOf(pc) == OpenOf(s.threads[i])
    requires LentTo(pc) == LentTo(s.threads[i]) && TakerOf(pc) == TakerOf(s.threads[i])
    requires RecordOf(pc) == RecordOf(s.threads[i]) && !s.threads[i].RelWait?
    requires pc.PlusUndo? || pc.PlusFail?
    ensures Inv(s')
  {
    hide Exact, Balanced, RecordOk, Counted, On, Lease, Unlease, AddOpen, RemoveOpen, Retain, Forget;
    FirstThenRest(accepted);
    Pinned(s, i, Lookups, accepted[0]);
    ForgetCounts(s.table, accepted[0], 1);
    Rebalance(s, s', i, pc, Lookups, accepted[0], -1);
    TableStepKeeps(s, s', i, pc);
  }

  lemma UndoneKeeps(s: State, i: nat)
    requires Inv(s) && i < |s.threads| && (s.threads[i].PlusUndo? || s.threads[i].PlusFail?)
    requires s.threads[i].accepted == []
    ensures Inv(ContinueUse(s, i))
  {
    hide Inv;
    var s' := ContinueUse(s, i);
    ThreadIsOk(s, i);
    QuietKeeps(s, s', i, s'.threads[i]);
  }

  lemma UndoOneKeeps(s: State, i: nat)
    requires Inv(s) && i < |s.threads| && s.threads[i].PlusUndo? && s.threads[i].accepted != []
    ensures Inv(ContinueUse(s, i))
  {
    hide Inv, Forget, Sum, Exact;
    var before := s.threads[i];
    var pc := PlusUndo(before.r, before.fh, before.accepted[1..]);
    ThreadIsOk(s, i);
    assert ContinueUse(s, i) == s.At(i, pc).(table := Forget(s.table, before.accepted[0].ino, 1));
    ForgetOneKeeps(s, ContinueUse(s, i), i, pc, before.accepted);
  }

  lemma FailOneKeeps(s: State, i: nat)
    requires Inv(s) && i < |s.threads| && s.threads[i].PlusFail? && s.threads[i].accepted != []
    ensures Inv(ContinueUse(s, i))
  {
    hide Inv, Forget, Sum, Exact;
    var before := s.threads[i];
    var pc := PlusFail(before.accepted[1..]);
    ThreadIsOk(s, i);
    assert ContinueUse(s, i) == s.At(i, pc).(table := Forget(s.table, before.accepted[0].ino, 1));
    ForgetOneKeeps(s, ContinueUse(s, i), i, pc, before.accepted);
  }

  lemma UndoKeeps(s: State, i: nat)
    requires Inv(s) && i < |s.threads| && (s.threads[i].PlusUndo? || s.threads[i].PlusFail?)
    ensures Inv(ContinueUse(s, i))
  {
    hide Inv, ContinueUse;
    if s.threads[i].accepted == [] {
      UndoneKeeps(s, i);
    } else if s.threads[i].PlusUndo? {
      UndoOneKeeps(s, i);
    } else {
      FailOneKeeps(s, i);
    }
  }

  lemma PlusDropKeeps(s: State, i: nat)
    requires Inv(s) && i < |s.threads| && s.threads[i].PlusDrop?
    ensures Inv(ContinueUse(s, i))
  {
    hide Exact, Balanced, RecordOk, Counted, Sum, Tabled, On, Lease, Unlease, AddOpen, RemoveOpen, Retain, Forget;
    var s' := ContinueUse(s, i);
    var r := s.threads[i].r;
    Pinned(s, i, Leases, r);
    UnleaseCounts(s.table, r);
    Rebalance(s, s', i, s'.threads[i], Leases, r, -1);
    TableStepKeeps(s, s', i, s'.threads[i]);
  }

  lemma FindKeeps(s: State, i: nat)
    requires Inv(s) && i < |s.threads| && s.threads[i].UseFind?
    ensures Inv(ContinueUse(s, i))
  {
    hide Exact, Balanced, RecordOk, Counted, Sum, Tabled;
    var s' := ContinueUse(s, i);
    var pc := s'.threads[i];
    var r, fh := s.threads[i].r, s.threads[i].fh;
    Unchanged(s.table);
    Rebalance(s, s', i, pc, Leases, NOWHERE, 0);
    Pinned(s, i, Leases, r);
    if pc.UseAcquire? {
      TabledPins(s, fh);
    }
    TableStepKeeps(s, s', i, pc);
  }

  /** A tabled handle pins the incarnation it was opened on. */
  lemma TabledPins(s: State, fh: nat)
    requires Inv(s) && fh < |s.records| && s.records[fh].tabled
    ensures On(s.table, Opens, s.records[fh].node) > 0 && s.table.Current(s.records[fh].node)
  {
    var r := s.records[fh].node;
    TabledUpdate(s.records, fh, s.records[fh].(tabled := false), r);
    assert On(s.table, Opens, r) == Sum(s.threads, Counts(Opens, r)) + Outside(s, Opens, r);
  }

  /** A callback's return, or a reply: no critical section of the table. */
  lemma QuietKeeps(s: State, s': State, i: nat, pc: Pc)
    requires Inv(s) && i < |s.threads| && ThreadOk(s, pc)
    requires s' == s.At(i, pc).(kernel := s'.kernel)
    requires LeaseOf(pc) == LeaseOf(s.threads[i]) && OpenOf(pc) == OpenOf(s.threads[i])
    requires LookupsOf(pc) + s'.kernel == LookupsOf(s.threads[i]) + s.kernel
    requires LentTo(pc) == LentTo(s.threads[i]) && TakerOf(pc) == TakerOf(s.threads[i])
    requires RecordOf(pc) in {None, RecordOf(s.threads[i])} && !s.threads[i].RelWait?
    ensures Inv(s')
  {
    hide Inv, Exact, Balanced, Counted, ThreadOk, Weight, Outside, Sum, LeaseOf, OpenOf, LookupsOf;
    InvParts(s);
    Unchanged(s.table);
    forall c, r
      ensures Weight(Counts(c, r), pc) + Outside(s', c, r) == Weight(Counts(c, r), s.threads[i]) + Outside(s, c, r)
    {
      QuietWeights(s, s', s.threads[i], pc, c, r);
    }
    Rebalance(s, s', i, pc, Leases, NOWHERE, 0);
    SameTableSameThread(s, s', pc);
    TableStepKeeps(s, s', i, pc);
  }

  lemma QuietWeights(s: State, s': State, before: Pc, pc: Pc, c: Counter, r: NodeRef)
    requires s'.fsRefs == s.fsRefs && s'.records == s.records
    requires LeaseOf(pc) == LeaseOf(before) && OpenOf(pc) == OpenOf(before)
    requires LookupsOf(pc) + s'.kernel == LookupsOf(before) + s.kernel
    ensures Weight(Counts(c, r), pc) + Outside(s', c, r) == Weight(Counts(c, r), before) + Outside(s, c, r)
  {
    hide LeaseOf, OpenOf, LookupsOf, Tabled;
    assert (LookupsOf(pc) + s'.kernel)[r] == (LookupsOf(before) + s.kernel)[r];
  }

  lemma SameTableSameThread(s: State, s': State, pc: Pc)
    requires s'.records == s.records && s'.table == s.table && ThreadOk(s, pc)
    ensures ThreadOk(s', pc)
  {}

  lemma ThreadIsOk(s: State, i: nat)
    requires Inv(s) && i < |s.threads|
    ensures ThreadOk(s, s.threads[i])
  {}

  lemma ListingReplyKeeps(s: State, i: nat, ok: bool)
    requires Inv(s) && i < |s.threads| && s.threads[i].PlusReply?
    ensures Inv(Returned(s, i, ok))
  {
    hide Inv;
    var s' := Returned(s, i, ok);
    QuietKeeps(s, s', i, s'.threads[i]);
  }

  lemma EntryReplyKeeps(s: State, i: nat, ok: bool)
    requires Inv(s) && i < |s.threads| && s.threads[i].EntryReply?
    ensures Inv(Returned(s, i, ok))
  {
    hide Inv;
    var s' := Returned(s, i, ok);
    QuietKeeps(s, s', i, s'.threads[i]);
  }

  lemma EntryAttrKeeps(s: State, i: nat, ok: bool)
    requires Inv(s) && i < |s.threads| && s.threads[i].EntryAttr?
    ensures Inv(Returned(s, i, ok))
  {
    hide Inv;
    var s' := Returned(s, i, ok);
    QuietKeeps(s, s', i, s'.threads[i]);
  }

  lemma OpenedKeeps(s: State, i: nat, ok: bool)
    requires Inv(s) && i < |s.threads| && (s.threads[i].OpenCall? || s.threads[i].RelCall?)
    ensures Inv(Returned(s, i, ok))
  {
    hide Inv;
    var s' := Returned(s, i, ok);
    ThreadIsOk(s, i);
    QuietKeeps(s, s', i, s'.threads[i]);
  }

  lemma ListedKeeps(s: State, i: nat, ok: bool)
    requires Inv(s) && i < |s.threads| && s.threads[i].PlusUsing?
    ensures Inv(Returned(s, i, ok))
  {
    hide Inv;
    var s' := Returned(s, i, ok);
    ThreadIsOk(s, i);
    QuietKeeps(s, s', i, s'.threads[i]);
  }

  lemma ReturnKeeps(s: State, i: nat, ok: bool)
    requires Inv(s) && i < |s.threads| && !s.threads[i].Using?
    ensures Inv(Returned(s, i, ok))
  {
    hide Inv;
    match s.threads[i]
    case PlusReply(_) => ListingReplyKeeps(s, i, ok);
    case EntryReply(_) => EntryReplyKeeps(s, i, ok);
    case EntryAttr(_, _) => EntryAttrKeeps(s, i, ok);
    case OpenCall(_, _) => OpenedKeeps(s, i, ok);
    case RelCall(_, _) => OpenedKeeps(s, i, ok);
    case PlusUsing(_, _, _) => ListedKeeps(s, i, ok);
    case _ =>
  }

  lemma EmitKeeps(s: State, i: nat, ino: nat, accepted: bool)
    requires Inv(s) && i < |s.threads|
    ensures Inv(Emitted(s, i, ino, accepted))
  {
    hide Exact, Balanced, RecordOk, Counted, Sum, Tabled;
    var s' := Emitted(s, i, ino, accepted);
    assert ThreadOk(s, s.threads[i]);
    Unchanged(s.table);
    if s' != s {
      Rebalance(s, s', i, s'.threads[i], Leases, NOWHERE, 0);
      TableStepKeeps(s, s', i, s'.threads[i]);
    }
  }

  lemma ReleaseCountsKeep(s: State, i: nat)
    requires Inv(s) && i < |s.threads| && (s.threads[i].RelNode? || s.threads[i].RelCount?)
    ensures Inv(ContinueRelease(s, i))
    ensures s.threads[i].RelNode? ==> ContinueRelease(s, i).threads[i] == RelCount(s.threads[i].r, s.threads[i].fh)
  {
    hide Exact, Balanced, RecordOk, Counted, Sum, Tabled, On, Lease, Unlease, AddOpen, RemoveOpen, Retain, Forget;
    var s' := ContinueRelease(s, i);
    var pc := s'.threads[i];
    var r := s.threads[i].r;
    assert ThreadOk(s, s.threads[i]);
    Pinned(s, i, Opens, r);
    if s.threads[i].RelNode? {
      LeaseCounts(s.table, r.ino);
      Rebalance(s, s', i, pc, Leases, r, 1);
    } else {
      CloseCounts(s.table, r);
      Rebalance(s, s', i, pc, Opens, r, -1);
    }
    TableStepKeeps(s, s', i, pc);
  }

  // ---------- steps on a handle record ----------

  ghost predicate OnlyMoves(before: Option<nat>, after: Option<nat>, fh: nat)
  {
    before == after || (before in {None, Some(fh)} && after in {None, Some(fh)})
  }

  /** A step of thread `i` on record `fh` and nothing else. */
  ghost predicate LendStep(s: State, s': State, i: nat, pc: Pc, fh: nat)
    requires i < |s.threads| && fh < |s.records|
  {
    var before := s.threads[i];
    && s'.threads == s.threads[i := pc] && s'.table == s.table && s'.fsRefs == s.fsRefs && s'.kernel == s.kernel
    && |s'.records| == |s.records| && s' == s.At(i, pc).Lend(fh, s'.records[fh].lending)
    && LeaseOf(pc) == LeaseOf(before) && OpenOf(pc) == OpenOf(before) && LookupsOf(pc) == LookupsOf(before)
    && OnlyMoves(LentTo(before), LentTo(pc), fh) && OnlyMoves(TakerOf(before), TakerOf(pc), fh)
    && OnlyMoves(RecordOf(before), RecordOf(pc), fh)
  }

  lemma LendBalances(s: State, s': State, i: nat, pc: Pc, fh: nat)
    requires Balanced(s) && Exact(s.table) && i < |s.threads| && fh < |s.records| && LendStep(s, s', i, pc, fh)
    ensures Balanced(s')
  {
    Retabled(s.records, fh, s'.records[fh]);
    Unchanged(s.table);
    Rebalance(s, s', i, pc, Leases, NOWHERE, 0);
  }

  /** Only the one thread that took the record from the table relies on its flags. */
  lemma OthersKeep(s: State, s': State, i: nat, pc: Pc, fh: nat)
    requires Inv(s) && i < |s.threads| && fh < |s.records| && LendStep(s, s', i, pc, fh)
    requires var l, l' := s.records[fh].lending, s'.records[fh].lending;
             || (l'.closing == l.closing && l'.taken == l.taken && l'.consumed == l.consumed)
             || TakerOf(s.threads[i]) == Some(fh)
    ensures forall j | 0 <= j < |s.threads| && j != i :: ThreadOk(s', s.threads[j])
  {
    hide Exact, Balanced, Sum, Tabled;
    forall j | 0 <= j < |s.threads| && j != i ensures ThreadOk(s', s.threads[j]) {
      assert ThreadOk(s, s.threads[j]);
      if TakerOf(s.threads[i]) == Some(fh) {
        assert RecordOk(s, fh);
        SumCoversTwo(s.threads, i, j, Taking(fh));
      }
    }
  }

  lemma LendStepKeeps(s: State, s': State, i: nat, pc: Pc, fh: nat)
    requires Inv(s) && i < |s.threads| && fh < |s.records| && LendStep(s, s', i, pc, fh)
    requires RecordOk(s', fh) && ThreadOk(s', pc)
    requires s.threads[i].RelWait? ==> s.threads[i].fh == fh
    requires forall j | 0 <= j < |s.threads| && j != i :: ThreadOk(s', s.threads[j])
    ensures Inv(s')
  {
    hide Sum, Tabled;
    LendBalances(s, s', i, pc, fh);
    Moved(s.threads, i, pc);
    forall f | 0 <= f < |s'.records| ensures RecordOk(s', f) {
      if f != fh {
        assert RecordOk(s, f) && s'.records[f] == s.records[f];
        assert Sum(s'.threads, Lent(f)) == Sum(s.threads, Lent(f));
        assert Sum(s'.threads, Taking(f)) == Sum(s.threads, Taking(f));
        assert Sum(s'.threads, Refers(f)) == Sum(s.threads, Refers(f));
      }
    }
  }

  lemma AcquireKeeps(s: State, i: nat)
    requires Inv(s) && i < |s.threads| && s.threads[i].UseAcquire?
    ensures Inv(ContinueUse(s, i))
  {
    hide Exact, Balanced, Sum, Tabled;
    var s' := ContinueUse(s, i);
    var pc, fh := s'.threads[i], s.threads[i].fh;
    assert ThreadOk(s, s.threads[i]) && RecordOk(s, fh);
    if s.records[fh].lending.closing {
      QuietKeeps(s, s', i, pc);
    } else {
      Moved(s.threads, i, pc);
      SumCovers(s.threads, i, Refers(fh));
      assert Sum(s'.threads, Lent(fh)) == Sum(s.threads, Lent(fh)) + 1;
      assert Sum(s'.threads, Taking(fh)) == Sum(s.threads, Taking(fh));
      assert RecordOk(s', fh);
      OthersKeep(s, s', i, pc, fh);
      LendStepKeeps(s, s', i, pc, fh);
    }
  }

  lemma GiveBackKeeps(s: State, s': State, i: nat, pc: Pc, fh: nat)
    requires Inv(s) && i < |s.threads| && LentTo(s.threads[i]) == Some(fh) && fh < |s.records|
    requires LendStep(s, s', i, pc, fh) && RecordOf(pc) == None
    requires s'.records[fh].lending == GiveBack(s.records[fh].lending)
    requires ThreadOk(s', pc)
    ensures Inv(s')
    ensures s'.records[fh].lending.active == s.records[fh].lending.active - 1
  {
    hide Sum, Tabled;
    assert RecordOk(s, fh);
    Moved(s.threads, i, pc);
    SumCovers(s.threads, i, Lent(fh));
    assert Sum(s'.threads, Lent(fh)) == Sum(s.threads, Lent(fh)) - 1;
    assert Sum(s'.threads, Taking(fh)) == Sum(s.threads, Taking(fh));
    assert Sum(s'.threads, Refers(fh)) == Sum(s.threads, Refers(fh)) - 1;
    assert RecordOk(s', fh);
    OthersKeep(s, s', i, pc, fh);
    LendStepKeeps(s, s', i, pc, fh);
  }

  lemma UsingReturnKeeps(s: State, i: nat, ok: bool)
    requires Inv(s) && i < |s.threads| && s.threads[i].Using?
    ensures Inv(Returned(s, i, ok))
  {
    hide RecordOk, Exact, Balanced;
    assert ThreadOk(s, s.threads[i]);
    var s' := Returned(s, i, ok);
    GiveBackKeeps(s, s', i, s'.threads[i], s.threads[i].fh);
  }

  lemma PlusDoneKeeps(s: State, i: nat)
    requires Inv(s) && i < |s.threads| && s.threads[i].PlusDone?
    ensures Inv(ContinueUse(s, i))
  {
    hide RecordOk, Exact, Balanced;
    assert ThreadOk(s, s.threads[i]);
    var s' := ContinueUse(s, i);
    GiveBackKeeps(s, s', i, s'.threads[i], s.threads[i].fh);
  }

  lemma CloseKeeps(s: State, i: nat)
    requires Inv(s) && i < |s.threads| && s.threads[i].RelClose?
    ensures Inv(ContinueRelease(s, i))
  {
    hide Exact, Balanced, Sum, Tabled;
    var s' := ContinueRelease(s, i);
    var pc, fh := s'.threads[i], s.threads[i].fh;
    assert ThreadOk(s, s.threads[i]) && RecordOk(s, fh);
    Moved(s.threads, i, pc);
    SumCovers(s.threads, i, Taking(fh));
    SumCovers(s.threads, i, Refers(fh));
    assert Sum(s'.threads, Lent(fh)) == Sum(s.threads, Lent(fh));
    assert Sum(s'.threads, Taking(fh)) == Sum(s.threads, Taking(fh));
    assert RecordOk(s', fh);
    OthersKeep(s, s', i, pc, fh);
    LendStepKeeps(s, s', i, pc, fh);
  }

  lemma WaitKeeps(s: State, i: nat)
    requires Inv(s) && i < |s.threads| && s.threads[i].RelWait?
    ensures Inv(ContinueRelease(s, i))
  {
    hide Exact, Balanced, Sum, Tabled;
    var s' := ContinueRelease(s, i);
    var pc, fh := s'.threads[i], s.threads[i].fh;
    assert ThreadOk(s, s.threads[i]) && RecordOk(s, fh);
    if i !in s.records[fh].lending.waiters {
      Moved(s.threads, i, pc);
      SumCovers(s.threads, i, Taking(fh));
      SumCovers(s.threads, i, Refers(fh));
      assert Sum(s'.threads, Lent(fh)) == Sum(s.threads, Lent(fh));
      assert Sum(s'.threads, Taking(fh)) == Sum(s.threads, Taking(fh));
      assert RecordOk(s', fh);
      OthersKeep(s, s', i, pc, fh);
      LendStepKeeps(s, s', i, pc, fh);
    }
  }

  lemma TakeKeeps(s: State, i: nat)
    requires Inv(s) && i < |s.threads| && s.threads[i].RelTake?
    ensures Inv(ContinueRelease(s, i))
  {
    hide Exact, Balanced, Sum, Tabled;
    var s' := ContinueRelease(s, i);
    var pc, fh := s'.threads[i], s.threads[i].fh;
    assert ThreadOk(s, s.threads[i]) && RecordOk(s, fh);
    Moved(s.threads, i, pc);
    SumCovers(s.threads, i, Taking(fh));
    SumCovers(s.threads, i, Refers(fh));
    assert Sum(s'.threads, Lent(fh)) == Sum(s.threads, Lent(fh));
    assert Sum(s'.threads, Taking(fh)) == Sum(s.threads, Taking(fh)) - 1;
    assert RecordOk(s', fh);
    OthersKeep(s, s', i, pc, fh);
    LendStepKeeps(s, s', i, pc, fh);
  }

  /** A step of thread `i` from or to a state in which its record is not yet, or no longer, in the table. */
  lemma RecordsKept(s: State, s': State, i: nat, pc: Pc, fh: nat)
    requires Inv(s) && i < |s.threads| && !s.threads[i].RelWait? && s'.threads == s.threads[i := pc]
    requires fh < |s'.records| && RecordOk(s', fh)
    requires |s'.records| == |s.records| || (|s'.records| == |s.records| + 1 && fh == |s.records|)
    requires forall f | 0 <= f < |s.records| && f != fh :: s'.records[f] == s.records[f]
    requires OnlyMoves(LentTo(s.threads[i]), LentTo(pc), fh) && OnlyMoves(TakerOf(s.threads[i]), TakerOf(pc), fh)
    requires OnlyMoves(RecordOf(s.threads[i]), RecordOf(pc), fh)
    ensures forall f | 0 <= f < |s'.records| :: RecordOk(s', f)
  {
    Moved(s.threads, i, pc);
    forall f | 0 <= f < |s'.records| ensures RecordOk(s', f) {
      if f != fh {
        assert RecordOk(s, f);
        assert Sum(s'.threads, Lent(f)) == Sum(s.threads, Lent(f));
        assert Sum(s'.threads, Taking(f)) == Sum(s.threads, Taking(f));
        assert Sum(s'.threads, Refers(f)) == Sum(s.threads, Refers(f));
      }
    }
  }

  lemma StartReleaseBalances(s: State, i: nat, a: Action)
    requires Inv(s) && i < |s.threads| && s.threads[i].Idle? && a.StartRelease?
    ensures Balanced(Start(s, i, a))
  {
    hide Inv, Exact, Balanced, Counted;
    InvParts(s);
    var s' := Start(s, i, a);
    if s' != s {
      Retabled(s.records, a.fh, s'.records[a.fh]);
      Unchanged(s.table);
      Rebalance(s, s', i, s'.threads[i], Leases, NOWHERE, 0);
    }
  }

  lemma StartReleaseThreads(s: State, i: nat, a: Action)
    requires Inv(s) && i < |s.threads| && s.threads[i].Idle? && a.StartRelease?
    ensures var s' := Start(s, i, a); forall j | 0 <= j < |s'.threads| :: ThreadOk(s', s'.threads[j])
  {
    hide Exact, Balanced;
    var s' := Start(s, i, a);
    forall j | 0 <= j < |s'.threads| ensures ThreadOk(s', s'.threads[j]) {
      assert ThreadOk(s, s.threads[j]);
      if j == i && s' != s { assert RecordOk(s, a.fh); }
    }
  }

  lemma StartReleaseRecords(s: State, i: nat, a: Action)
    requires Inv(s) && i < |s.threads| && s.threads[i].Idle? && a.StartRelease?
    ensures var s' := Start(s, i, a); forall f | 0 <= f < |s'.records| :: RecordOk(s', f)
  {
    hide Exact, Balanced, ThreadOk;
    var s' := Start(s, i, a);
    if s' != s {
      var pc, fh := s'.threads[i], a.fh;
      assert RecordOk(s', fh) by {
        assert RecordOk(s, fh);
        Moved(s.threads, i, pc);
        assert Sum(s'.threads, Lent(fh)) == Sum(s.threads, Lent(fh));
        assert Sum(s'.threads, Taking(fh)) == Sum(s.threads, Taking(fh)) + 1;
      }
      RecordsKept(s, s', i, pc, fh);
    }
  }

  /** Winning a handle from the table turns its entry into an open the winner stands for. */
  lemma StartReleaseKeeps(s: State, i: nat, a: Action)
    requires Inv(s) && i < |s.threads| && s.threads[i].Idle? && a.StartRelease?
    ensures Inv(Start(s, i, a))
  {
    hide Exact, Balanced, RecordOk, ThreadOk;
    StartReleaseBalances(s, i, a);
    StartReleaseRecords(s, i, a);
    StartReleaseThreads(s, i, a);
  }

  lemma InvParts(s: State)
    requires Inv(s)
    ensures Exact(s.table) && Balanced(s)
  {}

  /** The open counted for a handle passes from its thread to the table. */
  lemma AddRecordWeights(s: State, i: nat, c: Counter, r: NodeRef)
    requires i < |s.threads| && (s.threads[i].OpenTable? || s.threads[i].CreateTable?)
    ensures var s' := ContinueOpen(s, i);
            Weight(Counts(c, r), s'.threads[i]) + Outside(s', c, r) ==
              Weight(Counts(c, r), s.threads[i]) + Outside(s, c, r)
  {
    hide Tabled, Sum;
    var s' := ContinueOpen(s, i);
    TabledAppend(s.records, s'.records[|s.records|], r);
  }

  lemma AddRecordBalances(s: State, i: nat)
    requires Inv(s) && i < |s.threads| && (s.threads[i].OpenTable? || s.threads[i].CreateTable?)
    ensures Balanced(ContinueOpen(s, i))
  {
    hide Inv, Exact, Balanced, Counted, Weight, Outside;
    InvParts(s);
    var s' := ContinueOpen(s, i);
    forall c, r
      ensures Weight(Counts(c, r), s'.threads[i]) + Outside(s', c, r) ==
              Weight(Counts(c, r), s.threads[i]) + Outside(s, c, r)
    {
      AddRecordWeights(s, i, c, r);
    }
    Unchanged(s.table);
    Rebalance(s, s', i, s'.threads[i], Leases, NOWHERE, 0);
  }

  lemma AddRecordThreads(s: State, i: nat)
    requires Inv(s) && i < |s.threads| && (s.threads[i].OpenTable? || s.threads[i].CreateTable?)
    ensures forall pc | ThreadOk(s, pc) :: ThreadOk(ContinueOpen(s, i), pc)
    ensures ThreadOk(ContinueOpen(s, i), ContinueOpen(s, i).threads[i])
  {
    hide Exact, Balanced, RecordOk;
    var s' := ContinueOpen(s, i);
    assert ThreadOk(s, s.threads[i]);
    assert s'.records[..|s.records|] == s.records;
    forall pc | ThreadOk(s, pc) ensures ThreadOk(s', pc) {
      if RecordOf(pc).Some? {
        assert s'.records[RecordOf(pc).value] == s'.records[..|s.records|][RecordOf(pc).value];
      }
    }
  }

  lemma AddRecordKeeps(s: State, i: nat)
    requires Inv(s) && i < |s.threads| && (s.threads[i].OpenTable? || s.threads[i].CreateTable?)
    ensures Inv(ContinueOpen(s, i))
  {
    hide Exact, Balanced, ThreadOk, Sum, Tabled;
    var s' := ContinueOpen(s, i);
    var pc, fh := s'.threads[i], |s.records|;
    AddRecordBalances(s, i);
    assert RecordOk(s', fh) by {
      NobodyHolds(s, fh);
      Moved(s.threads, i, pc);
      assert Sum(s'.threads, Lent(fh)) == Sum(s.threads, Lent(fh));
      assert Sum(s'.threads, Taking(fh)) == Sum(s.threads, Taking(fh));
    }
    RecordsKept(s, s', i, pc, fh);
    AddRecordThreads(s, i);
  }

  /** No thread refers to a record that has not been made. */
  lemma NobodyHolds(s: State, fh: nat)
    requires Inv(s) && fh >= |s.records|
    ensures Sum(s.threads, Lent(fh)) == 0 && Sum(s.threads, Taking(fh)) == 0 && Sum(s.threads, Refers(fh)) == 0
  {
    assert forall j | 0 <= j < |s.threads| :: ThreadOk(s, s.threads[j]);
    WeighsNothing(s.threads, Lent(fh));
    WeighsNothing(s.threads, Taking(fh));
    WeighsNothing(s.threads, Refers(fh));
  }

  // ---------- steps of the filesystem and the kernel ----------

  lemma RebalanceOutside(s: State, s': State, c0: Counter, r0: NodeRef, delta: int)
    requires Inv(s) && s'.threads == s.threads && s'.records == s.records
    requires Counted(s.table, s'.table, c0, r0, delta)
    requires forall c, r :: Outside(s', c, r) == Outside(s, c, r) + (if c == c0 && r == r0 then delta else 0)
    ensures Inv(s')
  {
    forall c, r ensures On(s'.table, c, r) == Sum(s'.threads, Counts(c, r)) + Outside(s', c, r) {
      assert On(s.table, c, r) == Sum(s.threads, Counts(c, r)) + Outside(s, c, r);
    }
    forall fh | 0 <= fh < |s.records| ensures RecordOk(s', fh) { assert RecordOk(s, fh); }
    EntriesStay(s.table, s'.table);
    forall j | 0 <= j < |s.threads| ensures ThreadOk(s', s'.threads[j]) { assert ThreadOk(s, s.threads[j]); }
  }

  lemma InsertCounts(t: Table<()>, parent: nat)
    requires Exact(t)
    ensures Counted(t, Insert(t, (), parent).1, Leases, NOWHERE, 0)
  {
    var (ino, t') := Insert(t, (), parent);
    InsertIsExact(t, (), parent);
    forall c, r ensures On(t', c, r) == On(t, c, r) {
      if r.ino != ino { assert t'.Current(r) == t.Current(r); }
    }
  }

  /** The filesystem may move links and parents at will: no reference is lost. */
  lemma ReparentCounts(t: Table<()>, ino: nat, parent: nat)
    requires Exact(t)
    ensures Counted(t, Reparent(t, ino, parent), Leases, NOWHERE, 0)
  {
    if ino in t.slots { StoredCounts(t, ino, t.slots[ino].(parent := parent)); }
  }

  lemma AddLinkCounts(t: Table<()>, ino: nat)
    requires Exact(t)
    ensures Counted(t, AddLink(t, ino), Leases, NOWHERE, 0)
  {
    if ino in t.slots { StoredCounts(t, ino, t.slots[ino].(links := t.slots[ino].links + 1)); }
  }

  lemma RemoveLinkCounts(t: Table<()>, ino: nat)
    requires Exact(t)
    ensures Counted(t, RemoveLink(t, ino), Leases, NOWHERE, 0)
  {
    if ino in t.slots { StoredCounts(t, ino, t.slots[ino].(links := SaturatingSub(t.slots[ino].links, 1))); }
  }

  lemma OutsideCovers(s: State, c: Counter, r: NodeRef)
    requires Inv(s)
    ensures On(s.table, c, r) >= Outside(s, c, r)
  {
    assert On(s.table, c, r) == Sum(s.threads, Counts(c, r)) + Outside(s, c, r);
  }

  lemma KernelForgetKeeps(s: State, r: NodeRef, count: nat)
    requires Inv(s)
    ensures Inv(Environment(s, KernelForget(r, count)))
  {
    hide Inv, Counted, Forget, Sum;
    var s' := Environment(s, KernelForget(r, count));
    InvParts(s);
    if 0 < count <= s.kernel[r] {
      OutsideCovers(s, Lookups, r);
      ForgetCounts(s.table, r, count);
      RebalanceOutside(s, s', Lookups, r, 0 - count);
    } else if count == 0 {
      ForgettingNothing(s.table, r.ino);
      RebalanceOutside(s, s', Leases, NOWHERE, 0);
    }
  }

  lemma FsLeaseKeeps(s: State, a: Action)
    requires Inv(s) && (a.FsGet? || a.FsDropRef?)
    ensures Inv(Environment(s, a))
  {
    hide Inv, Counted, Unlease, Sum;
    var s' := Environment(s, a);
    InvParts(s);
    match a
    case FsGet(ino) =>
      if ino in s.table.slots {
        LeaseCounts(s.table, ino);
        RebalanceOutside(s, s', Leases, s.table.RefOf(ino), 1);
      }
    case FsDropRef(r) =>
      if r in s.fsRefs {
        OutsideCovers(s, Leases, r);
        UnleaseCounts(s.table, r);
        RebalanceOutside(s, s', Leases, r, -1);
      }
  }

  lemma ForgettingNothing(t: Table<()>, ino: nat)
    requires Exact(t)
    ensures Counted(t, Forget(t, ino, 0), Leases, NOWHERE, 0)
  {
    if ino in t.slots { StoredCounts(t, ino, t.slots[ino]); }
  }

  lemma FsTableKeeps(s: State, a: Action)
    requires Inv(s) && (a.FsInsert? || a.FsReparent? || a.FsAddLink? || a.FsRemoveLink?)
    ensures Inv(Environment(s, a))
  {
    hide Inv, Counted, Exact;
    InvParts(s);
    match a {
      case FsInsert(parent) => InsertCounts(s.table, parent);
      case FsReparent(ino, parent) => ReparentCounts(s.table, ino, parent);
      case FsAddLink(ino) => AddLinkCounts(s.table, ino);
      case FsRemoveLink(ino) => RemoveLinkCounts(s.table, ino);
    }
    RebalanceOutside(s, Environment(s, a), Leases, NOWHERE, 0);
  }

  lemma RecordStepKeeps(s: State, a: Action)
    requires Inv(s) && (a.SpuriousWake? || a.DropRecord?)
    ensures Inv(Environment(s, a))
  {
    hide Exact, Sum, Tabled;
    var s' := Environment(s, a);
    var fh := a.fh;
    if s' != s {
      assert RecordOk(s, fh);
      assert s' == s.Lend(fh, s'.records[fh].lending);
      assert Balanced(s') by {
        Retabled(s.records, fh, s'.records[fh]);
        forall c, r ensures On(s'.table, c, r) == Sum(s'.threads, Counts(c, r)) + Outside(s', c, r) {
          assert On(s.table, c, r) == Sum(s.threads, Counts(c, r)) + Outside(s, c, r);
        }
      }
      if a.DropRecord? { UnreferredIsIdle(s.threads, fh); }
      forall f | 0 <= f < |s'.records| ensures RecordOk(s', f) { assert RecordOk(s, f); }
      forall j | 0 <= j < |s.threads| ensures ThreadOk(s', s'.threads[j]) {
        assert ThreadOk(s, s.threads[j]);
        SumCovers(s.threads, j, Refers(fh));
      }
    }
  }

  lemma {:induction false} UnreferredIsIdle(threads: seq<Pc>, fh: nat)
    ensures Sum(threads, Lent(fh)) + Sum(threads, Taking(fh)) <= Sum(threads, Refers(fh))
  {
    if threads != [] { UnreferredIsIdle(threads[..|threads| - 1], fh); }
  }

  lemma ContinueKeeps(s: State, i: nat)
    requires Inv(s) && i < |s.threads|
    ensures Inv(Next(s, i, Continue))
  {
    hide Inv, ContinueUse, ContinueOpen, ContinueRelease, ContinueEntry;
    match s.threads[i]
    case OpenCount(_, _) => OpenKeeps(s, i);
    case Dropping(_) => OpenKeeps(s, i);
    case CreateCount(_) => OpenKeeps(s, i);
    case OpenTable(_, _) => AddRecordKeeps(s, i);
    case CreateTable(_) => AddRecordKeeps(s, i);
    case UseFind(_, _, _, _) => FindKeeps(s, i);
    case UseAcquire(_, _, _) => AcquireKeeps(s, i);
    case PlusRetain(_, _, _, _) => RetainKeeps(s, i);
    case PlusUndo(_, _, _) => UndoKeeps(s, i);
    case PlusFail(_) => UndoKeeps(s, i);
    case PlusDone(_, _, _) => PlusDoneKeeps(s, i);
    case PlusDrop(_, _) => PlusDropKeeps(s, i);
    case RelNode(_, _) => ReleaseCountsKeep(s, i);
    case RelCount(_, _) => ReleaseCountsKeep(s, i);
    case RelClose(_, _) => CloseKeeps(s, i);
    case RelWait(_, _) => WaitKeeps(s, i);
    case RelTake(_, _) => TakeKeeps(s, i);
    case EntryGet(_, _) => EntryGetKeeps(s, i);
    case EntryCount(_, _, _) => EntryCountKeeps(s, i);
    case EntryDrop(_, _, _) => EntryDropKeeps(s, i);
    case _ => NothingToContinue(s, i);
  }

  lemma NothingToContinue(s: State, i: nat)
    requires i < |s.threads| && (var pc := s.threads[i];
      || pc.Idle? || pc.OpenCall? || pc.Using? || pc.PlusUsing? || pc.PlusReply? || pc.RelCall? || pc.EntryAttr?
      || pc.EntryReply?)
    ensures Next(s, i, Continue) == s
  {}

  /** Every step of every thread, of the filesystem and of the kernel keeps the invariant. */
  lemma NextKeeps(s: State, i: nat, a: Action)
    requires Inv(s)
    ensures Inv(Next(s, i, a))
  {
    hide Inv, Environment, Returned, Emitted, Start;
    if i >= |s.threads| {
      match a
      case FsGet(_) => FsLeaseKeeps(s, a);
      case FsDropRef(_) => FsLeaseKeeps(s, a);
      case KernelForget(r, count) => KernelForgetKeeps(s, r, count);
      case FsInsert(_) => FsTableKeeps(s, a);
      case FsReparent(_, _) => FsTableKeeps(s, a);
      case FsAddLink(_) => FsTableKeeps(s, a);
      case FsRemoveLink(_) => FsTableKeeps(s, a);
      case SpuriousWake(_) => RecordStepKeeps(s, a);
      case DropRecord(_) => RecordStepKeeps(s, a);
      case _ => NoEnvironmentStep(s, a);
    } else {
      match a
      case Continue => ContinueKeeps(s, i);
      case Return(ok) => if s.threads[i].Using? { UsingReturnKeeps(s, i, ok); } else { ReturnKeeps(s, i, ok); }
      case Emit(ino, accepted) => EmitKeeps(s, i, ino, accepted);
      case StartRelease(_, _, _) => if s.threads[i].Idle? { StartReleaseKeeps(s, i, a); }
      case _ => if s.threads[i].Idle? { StartKeeps(s, i, a); }
    }
  }

  lemma NoEnvironmentStep(s: State, a: Action)
    requires a.Continue? || a.Return? || a.Emit? || a.StartOpen? || a.StartUse? || a.StartRelease? || a.StartEntry?
    ensures Environment(s, a) == s
  {}
}
