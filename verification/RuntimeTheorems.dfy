/** What the invariant means: theorems about every interleaving of any number of threads. */
module RuntimeTheorems {
  import opened Base
  import opened Nodes
  import opened Handles
  import opened Runtime
  import opened RuntimeProofs

  lemma {:induction false} AllIdleWeighsNothing(n: nat, m: Metric)
    ensures Sum(seq(n, i => Idle), m) == 0
  {
    WeighsNothing(seq(n, i => Idle), m);
  }

  lemma InitiallyHolds(n: nat)
    ensures Inv(Initially(n))
  {
    var s := Initially(n);
    InitialIsExact(());
    forall c, r ensures On(s.table, c, r) == Sum(s.threads, Counts(c, r)) + Outside(s, c, r) {
      AllIdleWeighsNothing(n, Counts(c, r));
    }
  }

  /** The invariant holds after every schedule. */
  lemma {:induction false} RunHolds(n: nat, schedule: seq<(nat, Action)>)
    ensures Inv(Run(Initially(n), schedule))
  {
    hide Inv, Next;
    if schedule == [] {
      InitiallyHolds(n);
    } else {
      var last := schedule[|schedule| - 1];
      RunHolds(n, schedule[..|schedule| - 1]);
      NextKeeps(Run(Initially(n), schedule[..|schedule| - 1]), last.0, last.1);
    }
  }

  /** A state some schedule leads to. */
  ghost predicate Reachable(s: State)
  {
    exists n, schedule :: s == Run(Initially(n), schedule)
  }

  lemma ReachableHolds(s: State)
    requires Reachable(s)
    ensures Inv(s)
  {
    hide Inv;
    var n, schedule :| s == Run(Initially(n), schedule);
    RunHolds(n, schedule);
  }

  /** The live references to an incarnation: `NodeRef`s, handles, lookups the kernel has or is about to have. */
  ghost function References(s: State, c: Counter, r: NodeRef): nat
  {
    Sum(s.threads, Counts(c, r)) + Outside(s, c, r)
  }

  /**
   * Every live slot counts exactly its references: `leases` the live `NodeRef`s, `opens` the tabled handles plus the
   * operations between `add_open` and the table or between the table and `remove_open`, `lookups` those replied to and
   * not forgotten plus those in flight. A referenced incarnation is live, and nothing unreferenced and unlinked is.
   */
  lemma CountersAreExact(s: State, ino: nat, r: NodeRef)
    requires Reachable(s)
    ensures ino in s.table.slots ==>
              var slot := s.table.slots[ino];
              && slot.leases == References(s, Leases, s.table.RefOf(ino))
              && slot.opens == References(s, Opens, s.table.RefOf(ino))
              && slot.lookups == References(s, Lookups, s.table.RefOf(ino))
              && !slot.Droppable()
    ensures (exists c :: References(s, c, r) > 0) ==> s.table.Current(r)
    ensures Exact(s.table)
  {
    ReachableHolds(s);
    assert forall c :: On(s.table, c, r) == References(s, c, r);
    if ino in s.table.slots {
      assert forall c :: On(s.table, c, s.table.RefOf(ino)) == References(s, c, s.table.RefOf(ino));
    }
  }

  /**
   * While a `NodeRef` lives its inode keeps the same record: dropping it finds its own record and a positive count,
   * so the pointer test succeeds and the subtraction does not saturate.
   */
  lemma NodeRefsPin(s: State, i: nat, r: NodeRef)
    requires Reachable(s)
    requires (i < |s.threads| && LeaseOf(s.threads[i]) == Some(r)) || r in s.fsRefs
    ensures s.table.Current(r) && s.table.slots[r.ino].leases >= 1
  {
    ReachableHolds(s);
    if i < |s.threads| && LeaseOf(s.threads[i]) == Some(r) {
      Pinned(s, i, Leases, r);
    } else {
      OutsideCovers(s, Leases, r);
    }
  }

  /** A handle in the table pins the incarnation it was opened on. */
  lemma TabledHandlesPin(s: State, fh: nat)
    requires Reachable(s) && fh < |s.records| && s.records[fh].tabled
    ensures s.table.Current(s.records[fh].node) && s.table.slots[s.records[fh].node.ino].opens >= 1
  {
    ReachableHolds(s);
    TabledPins(s, fh);
  }

  /** After removing its record, a release always finds the node, and the incarnation that was opened. */
  lemma ReleaseFindsItsNode(s: State, i: nat)
    requires Reachable(s) && i < |s.threads| && s.threads[i].RelNode?
    ensures var r, fh := s.threads[i].r, s.threads[i].fh;
            && r.ino in s.table.slots
            && fh < |s.records| && s.records[fh].node == r
            && Next(s, i, Continue).threads[i] == RelCount(r, fh)
  {
    hide Inv, ContinueUse, ContinueOpen, ContinueEntry, ContinueRelease, Sum, On;
    ReachableHolds(s);
    ThreadIsOk(s, i);
    ReleaseCountsKeep(s, i);
    Pinned(s, i, Opens, s.threads[i].r);
  }

  /** No operation that holds a lease or a lookup fails on a missing inode. */
  lemma NoLateFailures(s: State, i: nat)
    requires Reachable(s) && i < |s.threads|
    ensures s.threads[i].OpenCount? ==> Next(s, i, Continue).threads[i].OpenTable?
    ensures s.threads[i].CreateCount? ==> Next(s, i, Continue).threads[i].CreateTable?
    ensures s.threads[i].EntryCount? ==> Next(s, i, Continue).threads[i].EntryDrop?
  {
    hide Inv, On, Sum, Next, Weight;
    ReachableHolds(s);
    match s.threads[i]
    case OpenCount(_, r) =>
      LeaseIsWeighed(s.threads[i], r);
      Pinned(s, i, Leases, r);
      CountStepsSucceed(s, i);
    case CreateCount(entry) =>
      EntryWeighs(s.threads[i], entry);
      Pinned(s, i, Lookups, entry.Ref());
      CountStepsSucceed(s, i);
    case EntryCount(r, _, _) =>
      LeaseIsWeighed(s.threads[i], r);
      Pinned(s, i, Leases, r);
      CountStepsSucceed(s, i);
    case _ =>
  }

  lemma EntryWeighs(pc: Pc, entry: Entry)
    requires pc == CreateCount(entry)
    ensures Weight(Counts(Lookups, entry.Ref()), pc) > 0
  {}

  lemma CountStepsSucceed(s: State, i: nat)
    requires i < |s.threads|
    ensures s.threads[i].OpenCount? && s.threads[i].r.ino in s.table.slots ==>
            Next(s, i, Continue).threads[i].OpenTable?
    ensures s.threads[i].CreateCount? && s.threads[i].entry.ino in s.table.slots ==>
            Next(s, i, Continue).threads[i].CreateTable?
    ensures s.threads[i].EntryCount? && s.threads[i].r.ino in s.table.slots ==>
            Next(s, i, Continue).threads[i].EntryDrop?
  {
    hide ContinueUse, ContinueRelease;
  }

  /**
   * An entry reply carries the attributes and the generation of one incarnation, which is still live when it is sent.
   */
  lemma EntryRepliesAreCoherent(s: State, i: nat)
    requires Reachable(s) && i < |s.threads| && s.threads[i].EntryReply?
    ensures var e := s.threads[i].entry;
            && e.attrsOf == e.record
            && e.record < |s.table.log| && s.table.log[e.record] == Issue(e.ino, e.generation)
            && s.table.Current(e.Ref()) && s.table.slots[e.ino].generation == e.generation
  {
    ReachableHolds(s);
    ThreadIsOk(s, i);
    Pinned(s, i, Lookups, s.threads[i].entry.Ref());
    LiveSlotIsLogged(s.table, s.threads[i].entry.ino);
  }

  /** A payload is touched only under a lease of a record opened on the same incarnation, and is still there. */
  lemma BorrowedPayloadsAreThere(s: State, i: nat, fh: nat)
    requires Reachable(s) && i < |s.threads| && LentTo(s.threads[i]) == Some(fh)
    ensures fh < |s.records|
    ensures var l := s.records[fh].lending; !l.taken && l.consumed == 0 && !l.finalized && l.active >= 1
    ensures s.records[fh].node == s.threads[i].r
  {
    ReachableHolds(s);
    ThreadIsOk(s, i);
    assert RecordOk(s, fh);
    SumCovers(s.threads, i, Lent(fh));
    SumCovers(s.threads, i, Refers(fh));
  }

  /** Whoever takes the payload won it alone, when no lease is left, and nobody has consumed it. */
  lemma TakingIsExclusive(s: State, i: nat)
    requires Reachable(s) && i < |s.threads| && s.threads[i].RelTake?
    ensures var fh := s.threads[i].fh;
            && fh < |s.records| && s.records[fh].lending.active == 0 && s.records[fh].lending.consumed == 0
            && !s.records[fh].tabled
            && forall j | 0 <= j < |s.threads| ::
                 LentTo(s.threads[j]) != Some(fh) && (j != i ==> TakerOf(s.threads[j]) != Some(fh))
  {
    ReachableHolds(s);
    ThreadIsOk(s, i);
    var fh := s.threads[i].fh;
    assert RecordOk(s, fh);
    SumCovers(s.threads, i, Taking(fh));
    forall j | 0 <= j < |s.threads|
      ensures LentTo(s.threads[j]) != Some(fh) && (j != i ==> TakerOf(s.threads[j]) != Some(fh))
    {
      SumCovers(s.threads, j, Lent(fh));
      if j != i { SumCoversTwo(s.threads, i, j, Taking(fh)); }
    }
  }

  /** `HandleRecord::drop`, run for whatever records the runtime still holds when it is itself dropped. */
  ghost function Shutdown(records: seq<Record>): seq<Record>
  {
    seq(|records|, fh requires 0 <= fh < |records| =>
      if records[fh].lending.finalized then records[fh]
      else records[fh].(tabled := false, lending := Finalize(records[fh].lending)))
  }

  /**
   * No payload is ever consumed twice, and once every operation is over and the runtime dropped, each was consumed
   * once.
   */
  lemma ConsumedExactlyOnce(s: State, fh: nat)
    requires Reachable(s) && fh < |s.records|
    ensures s.records[fh].lending.consumed <= 1
    ensures s.records[fh].lending.finalized ==> s.records[fh].lending.consumed == 1
    ensures (forall i | 0 <= i < |s.threads| :: s.threads[i].Idle?) ==> Shutdown(s.records)[fh].lending.consumed == 1
  {
    ReachableHolds(s);
    assert RecordOk(s, fh);
    if forall i | 0 <= i < |s.threads| :: s.threads[i].Idle? {
      WeighsNothing(s.threads, Taking(fh));
    }
  }

  /** In every interleaving, no (inode, generation) pair is issued twice before an inode's 64-bit counter wraps. */
  lemma IssuesAreUnique(s: State, i: nat, j: nat)
    requires Reachable(s) && i < j < |s.table.log| && s.table.log[i].ino == s.table.log[j].ino
    ensures RepeatsOnlyAtTheWrap(s.table.log, i, j)
    ensures |s.table.log| <= GENERATIONS ==> s.table.log[i] != s.table.log[j]
  {
    hide Inv, Exact, LogNumbered;
    ReachableHolds(s);
    InvParts(s);
    ExactLogsAreNumbered(s.table);
    NumberedLogsRepeatOnlyAtTheWrap(s.table.log, i, j);
  }

  // ---------- closing ----------

  /** What every step does to a record: nothing about it is undone, and a closing record gains no lease. */
  ghost predicate Evolves(r: Record, r': Record)
  {
    var l, l' := r.lending, r'.lending;
    && r'.kind == r.kind && r'.node == r.node && (r'.tabled ==> r.tabled)
    && (l.closing ==> l'.closing && l'.active <= l.active)
    && (l.taken ==> l'.taken) && (l.finalized ==> l'.finalized) && l.consumed <= l'.consumed
  }

  /** A lease is given back one at a time, by a thread that holds it. */
  ghost predicate Evolved(s: State, s': State, i: nat, fh: nat)
    requires fh < |s.records|
  {
    && fh < |s'.records| && Evolves(s.records[fh], s'.records[fh])
    && var active, active' := s.records[fh].lending.active, s'.records[fh].lending.active;
       active' < active ==> active' == active - 1 && i < |s.threads| && LentTo(s.threads[i]) == Some(fh)
  }

  lemma TakeOrSleepEvolves(l: Lending, thread: nat)
    ensures var l' := TakeOrSleep(l, thread);
            && l'.closing == l.closing && l'.active == l.active && (l.taken ==> l'.taken)
            && l'.finalized == l.finalized && l'.consumed == l.consumed
  {}

  lemma ReleaseEvolves(s: State, i: nat, fh: nat)
    requires fh < |s.records| && i < |s.threads|
    ensures Evolved(s, ContinueRelease(s, i), i, fh)
  {
    hide TakeOrSleep, Lease, RemoveOpen;
    if s.threads[i].RelClose? || s.threads[i].RelWait? {
      if s.threads[i].fh < |s.records| {
        TakeOrSleepEvolves(s.records[s.threads[i].fh].lending.(closing := true), i);
        TakeOrSleepEvolves(s.records[s.threads[i].fh].lending, i);
      }
    }
  }

  lemma UseEvolves(s: State, i: nat, fh: nat)
    requires fh < |s.records| && i < |s.threads|
    ensures Evolved(s, ContinueUse(s, i), i, fh)
  {}

  lemma OpenEvolves(s: State, i: nat, fh: nat)
    requires fh < |s.records| && i < |s.threads|
    ensures Evolved(s, ContinueOpen(s, i), i, fh) && Evolved(s, ContinueEntry(s, i), i, fh)
  {}

  lemma ReturnEvolves(s: State, i: nat, ok: bool, fh: nat)
    requires fh < |s.records| && i < |s.threads|
    ensures Evolved(s, Returned(s, i, ok), i, fh)
  {}

  lemma NextEvolves(s: State, i: nat, a: Action, fh: nat)
    requires fh < |s.records|
    ensures Evolved(s, Next(s, i, a), i, fh)
  {
    hide ContinueRelease, ContinueUse, ContinueOpen, ContinueEntry, Returned;
    if i < |s.threads| {
      match a
      case Continue =>
        ReleaseEvolves(s, i, fh);
        UseEvolves(s, i, fh);
        OpenEvolves(s, i, fh);
      case Return(ok) => ReturnEvolves(s, i, ok, fh);
      case _ =>
    }
  }

  /** The leases of `fh` given back along a schedule. */
  ghost function GivenBack(s: State, schedule: seq<(nat, Action)>, fh: nat): nat
    requires fh < |s.records|
    decreases |schedule|
  {
    if schedule == [] then 0
    else
      var (before, last) := (schedule[..|schedule| - 1], schedule[|schedule| - 1]);
      RunKeepsRecord(s, before, fh);
      NextEvolves(Run(s, before), last.0, last.1, fh);
      var active, active' := Run(s, before).records[fh].lending.active, Run(s, schedule).records[fh].lending.active;
      GivenBack(s, before, fh) + (if active' < active then 1 else 0)
  }

  lemma {:induction false} RunKeepsRecord(s: State, schedule: seq<(nat, Action)>, fh: nat)
    requires fh < |s.records|
    ensures fh < |Run(s, schedule).records|
    ensures s.records[fh].lending.closing ==> Run(s, schedule).records[fh].lending.closing
    decreases |schedule|
  {
    if schedule != [] {
      var (before, last) := (schedule[..|schedule| - 1], schedule[|schedule| - 1]);
      RunKeepsRecord(s, before, fh);
      NextEvolves(Run(s, before), last.0, last.1, fh);
    }
  }

  /**
   * Once a record is closing, the leases left are those at the close less those given back since: the wait ends after
   * at most that many.
   */
  lemma {:induction false} ClosingDrains(s: State, schedule: seq<(nat, Action)>, fh: nat)
    requires fh < |s.records| && s.records[fh].lending.closing
    ensures fh < |Run(s, schedule).records|
    ensures Run(s, schedule).records[fh].lending.closing
    ensures Run(s, schedule).records[fh].lending.active + GivenBack(s, schedule, fh) == s.records[fh].lending.active
    decreases |schedule|
  {
    RunKeepsRecord(s, schedule, fh);
    if schedule != [] {
      var (before, last) := (schedule[..|schedule| - 1], schedule[|schedule| - 1]);
      ClosingDrains(s, before, fh);
      NextEvolves(Run(s, before), last.0, last.1, fh);
    }
  }

  /**
   * No wakeup is lost: a thread asleep in `close_and_take` waits for a lease some other thread still holds, and a
   * waiting thread with no lease left is awake and takes the payload in its next step.
   */
  lemma NoLostWakeup(s: State, i: nat) returns (holder: nat)
    requires Reachable(s) && i < |s.threads| && s.threads[i].RelWait?
    ensures var fh := s.threads[i].fh;
            && fh < |s.records|
            && (i in s.records[fh].lending.waiters || s.records[fh].lending.active > 0 ==>
                  holder < |s.threads| && holder != i && LentTo(s.threads[holder]) == Some(fh))
            && (s.records[fh].lending.active == 0 ==> Next(s, i, Continue).threads[i] == RelTake(s.threads[i].r, fh))
  {
    ReachableHolds(s);
    ThreadIsOk(s, i);
    var fh := s.threads[i].fh;
    assert RecordOk(s, fh);
    holder := i;
    if s.records[fh].lending.active > 0 {
      holder := SomeoneWeighs(s.threads, Lent(fh));
    }
  }

  // ---------- giving a listing back ----------

  /** The steps thread `i` takes along a schedule. */
  function OwnSteps(schedule: seq<(nat, Action)>, i: nat): nat
  {
    if schedule == [] then 0
    else
      var last := schedule[|schedule| - 1];
      OwnSteps(schedule[..|schedule| - 1], i) + (if last == (i, Continue) then 1 else 0)
  }

  /** What thread `i` takes from a counter along a schedule, step by step; what others do meanwhile does not count. */
  ghost function TakenBy(s: State, schedule: seq<(nat, Action)>, i: nat, c: Counter, r: NodeRef): int
  {
    if schedule == [] then 0
    else
      var (before, last) := (schedule[..|schedule| - 1], schedule[|schedule| - 1]);
      TakenBy(s, before, i, c, r) +
        (if last.0 == i then On(Run(s, before).table, c, r) - On(Run(s, schedule).table, c, r) else 0)
  }

  /** Another thread's step leaves the thread where it is. */
  ghost predicate Leaves(s: State, s': State, i: nat)
    requires i < |s.threads|
  {
    |s'.threads| == |s.threads| && s'.threads[i] == s.threads[i]
  }

  lemma ContinueLeaves(s: State, i: nat, j: nat)
    requires i < |s.threads| && j < |s.threads| && i != j
    ensures Leaves(s, ContinueOpen(s, j), i) && Leaves(s, ContinueEntry(s, j), i)
    ensures Leaves(s, ContinueUse(s, j), i) && Leaves(s, ContinueRelease(s, j), i)
  {
    hide Lease, Unlease, Retain, Forget, AddOpen, RemoveOpen, TakeOrSleep, Close;
  }

  lemma ReturnLeaves(s: State, i: nat, j: nat, ok: bool, a: Action)
    requires i < |s.threads| && j < |s.threads| && i != j
    ensures Leaves(s, Returned(s, j, ok), i) && Leaves(s, Start(s, j, a), i)
  {}

  lemma EnvironmentLeaves(s: State, i: nat, a: Action)
    requires i < |s.threads|
    ensures Leaves(s, Environment(s, a), i)
  {
    hide Insert, Lease, Unlease, Forget, Reparent, AddLink, RemoveLink, Finalize;
  }

  lemma OthersLeaveThread(s: State, i: nat, j: nat, a: Action)
    requires i < |s.threads| && j != i
    ensures Leaves(s, Next(s, j, a), i)
  {
    hide ContinueOpen, ContinueEntry, ContinueUse, ContinueRelease, Returned, Start, Environment;
    if j >= |s.threads| {
      EnvironmentLeaves(s, i, a);
    } else {
      ContinueLeaves(s, i, j);
      ReturnLeaves(s, i, j, a.Return? && a.ok, a);
    }
  }

  /** A thread that gives a listing back does nothing but continue. */
  lemma FailingOnlyContinues(s: State, i: nat, a: Action)
    requires i < |s.threads| && s.threads[i].PlusFail? && a != Continue
    ensures Next(s, i, a) == s
  {}

  /**
   * Whatever all others do in between, a thread that forgets an accepted readdirplus listing takes back exactly the
   * lookups of the entries it has got through, repeats included, and nothing else; in the end, those of the whole list.
   */
  lemma {:induction false} UndoTakesBackTheListing(
    s: State, schedule: seq<(nat, Action)>, i: nat, accepted: seq<NodeRef>)
    requires Inv(s) && i < |s.threads| && s.threads[i] == PlusFail(accepted) && OwnSteps(schedule, i) <= |accepted|
    ensures var s', done := Run(s, schedule), OwnSteps(schedule, i);
            && Inv(s') && i < |s'.threads| && s'.threads[i] == PlusFail(accepted[done..])
            && forall c, r :: TakenBy(s, schedule, i, c, r) == if c == Lookups then multiset(accepted[..done])[r] else 0
    decreases |schedule|
  {
    hide Inv, On, Next, TakenBy;
    if schedule == [] {
      NothingTaken(s, i);
    } else {
      var (before, last) := (schedule[..|schedule| - 1], schedule[|schedule| - 1]);
      UndoTakesBackTheListing(s, before, i, accepted);
      var (mid, done) := (Run(s, before), OwnSteps(before, i));
      NextKeeps(mid, last.0, last.1);
      if last == (i, Continue) {
        UndoOneCounts(mid, i, accepted[done..]);
        assert accepted[done..][1..] == accepted[done + 1..];
        assert accepted[..done + 1] == accepted[..done] + [accepted[done]];
      } else if last.0 == i {
        FailingOnlyContinues(mid, i, last.1);
      } else {
        OthersLeaveThread(mid, i, last.0, last.1);
      }
      forall c, r { TakenByStep(s, schedule, i, c, r); }
    }
  }

  lemma NothingTaken(s: State, i: nat)
    ensures forall c, r :: TakenBy(s, [], i, c, r) == 0
  {}

  lemma TakenByStep(s: State, schedule: seq<(nat, Action)>, i: nat, c: Counter, r: NodeRef)
    requires schedule != []
    ensures var (before, last) := (schedule[..|schedule| - 1], schedule[|schedule| - 1]);
            var mid := Run(s, before);
            TakenBy(s, schedule, i, c, r) == TakenBy(s, before, i, c, r) +
              if last.0 == i then On(mid.table, c, r) - On(Next(mid, last.0, last.1).table, c, r) else 0
  {
    hide On, Next;
  }

  lemma FailStep(s: State, i: nat, accepted: seq<NodeRef>)
    requires i < |s.threads| && s.threads[i] == PlusFail(accepted) && accepted != []
    ensures Next(s, i, Continue) == ContinueUse(s, i)
    ensures ContinueUse(s, i) == s.At(i, PlusFail(accepted[1..])).(table := Forget(s.table, accepted[0].ino, 1))
  {}

  lemma UndoOneCounts(s: State, i: nat, accepted: seq<NodeRef>)
    requires Inv(s) && i < |s.threads| && s.threads[i] == PlusFail(accepted) && accepted != []
    ensures var s' := Next(s, i, Continue);
            && Inv(s') && s' == s.At(i, PlusFail(accepted[1..])).(table := s'.table)
            && Counted(s.table, s'.table, Lookups, accepted[0], -1)
  {
    hide Inv, Exact, Counted, Next, ContinueUse;
    InvParts(s);
    FailStep(s, i, accepted);
    FirstThenRest(accepted);
    Pinned(s, i, Lookups, accepted[0]);
    ForgetCounts(s.table, accepted[0], 1);
    UndoKeeps(s, i);
  }
}
