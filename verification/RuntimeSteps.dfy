/** Which steps of the runtime, the kernel and the filesystem move what: handles, slots, lookups told, leases held. */
module RuntimeSteps {
  import opened Base
  import opened Nodes
  import opened Handles
  import opened Runtime
  import opened RuntimeProofs
  import opened RuntimeTheorems

  // ---------- the handles ----------

  /** The handle a step enters in the table. */
  ghost function Entering(s: State, i: nat, a: Action): Option<(Kind, NodeRef)>
  {
    if i >= |s.threads| || a != Continue then None
    else
      match s.threads[i]
      case OpenTable(kind, r) => Some((kind, r))
      case CreateTable(entry) => Some((File, entry.Ref()))
      case _ => None
  }

  /** Whether a step is the start of a release that wins the handle. */
  ghost predicate Withdrawing(s: State, i: nat, a: Action, fh: nat)
    requires fh < |s.records|
  {
    && i < |s.threads| && s.threads[i].Idle?
    && a == StartRelease(s.records[fh].kind, s.records[fh].node.ino, fh) && s.records[fh].tabled
  }

  ghost predicate Closing(s: State, i: nat, a: Action, fh: nat)
  {
    i < |s.threads| && a == Continue && s.threads[i].RelClose? && s.threads[i].fh == fh
  }

  /** What a step does to a handle there is. */
  ghost predicate HandleMoves(s: State, s': State, i: nat, a: Action, fh: nat)
    requires fh < |s.records|
  {
    && fh < |s'.records|
    && s'.records[fh].kind == s.records[fh].kind && s'.records[fh].node == s.records[fh].node
    && s'.records[fh].tabled == (s.records[fh].tabled && !Withdrawing(s, i, a, fh))
    && s'.records[fh].lending.closing == (s.records[fh].lending.closing || Closing(s, i, a, fh))
  }

  ghost predicate HandlesMove(s: State, s': State, i: nat, a: Action)
  {
    && (forall fh | 0 <= fh < |s.records| :: HandleMoves(s, s', i, a, fh))
    && match Entering(s, i, a)
       case None => |s'.records| == |s.records|
       case Some((kind, node)) =>
         && |s'.records| == |s.records| + 1
         && s'.records[|s.records|] == Record(kind, node, true, Lending(0, false, false, {}, 0, false))
  }

  lemma OpenMovesHandles(s: State, i: nat)
    requires i < |s.threads|
    ensures Entering(s, i, Continue).None? ==> ContinueOpen(s, i).records == s.records
    ensures Entering(s, i, Continue).Some? ==> HandlesMove(s, Next(s, i, Continue), i, Continue)
  {
    hide Lease, Unlease, Retain, Forget, AddOpen, RemoveOpen, TakeOrSleep, ContinueUse, ContinueEntry, ContinueRelease;
  }

  lemma EntryMovesHandles(s: State, i: nat)
    requires i < |s.threads|
    ensures ContinueEntry(s, i).records == s.records
  {
    hide Lease, Unlease, Retain;
  }

  lemma UseMovesHandles(s: State, i: nat)
    requires i < |s.threads|
    ensures |ContinueUse(s, i).records| == |s.records|
    ensures forall fh | 0 <= fh < |s.records| ::
              var r, r' := s.records[fh], ContinueUse(s, i).records[fh];
              r'.(lending := r.lending) == r && r'.lending.closing == r.lending.closing
  {
    hide Lease, Unlease, Retain, Forget;
  }

  lemma ReleaseMovesHandles(s: State, i: nat)
    requires i < |s.threads|
    ensures |ContinueRelease(s, i).records| == |s.records|
    ensures forall fh | 0 <= fh < |s.records| ::
              var r, r' := s.records[fh], ContinueRelease(s, i).records[fh];
              && r'.(lending := r.lending) == r
              && r'.lending.closing == (r.lending.closing || Closing(s, i, Continue, fh))
  {
    hide TakeOrSleep, Lease, RemoveOpen;
    var pc := s.threads[i];
    if (pc.RelClose? || pc.RelWait?) && pc.fh < |s.records| {
      TakeOrSleepEvolves(s.records[pc.fh].lending.(closing := true), i);
      TakeOrSleepEvolves(s.records[pc.fh].lending, i);
    }
  }

  lemma ContinueMovesHandles(s: State, i: nat)
    requires i < |s.threads|
    ensures HandlesMove(s, Next(s, i, Continue), i, Continue)
  {
    hide ContinueUse, ContinueRelease, ContinueEntry, ContinueOpen;
    OpenMovesHandles(s, i);
    EntryMovesHandles(s, i);
    UseMovesHandles(s, i);
    ReleaseMovesHandles(s, i);
  }

  lemma ReturnMovesHandles(s: State, i: nat, ok: bool)
    requires i < |s.threads|
    ensures HandlesMove(s, Returned(s, i, ok), i, Return(ok))
  {}

  lemma OthersMoveHandles(s: State, i: nat, a: Action)
    requires i < |s.threads| && a != Continue
    ensures HandlesMove(s, Next(s, i, a), i, a)
  {
    hide Lease, Returned;
    if a.Return? { ReturnMovesHandles(s, i, a.ok); }
  }

  lemma EnvironmentMovesHandles(s: State, i: nat, a: Action)
    requires i >= |s.threads|
    ensures HandlesMove(s, Next(s, i, a), i, a)
  {
    hide Lease, Unlease, Retain, Forget, Insert, Reparent, AddLink, RemoveLink, Sum, Environment;
    RecordsMove(s, a);
  }

  lemma RecordsMove(s: State, a: Action)
    ensures |Environment(s, a).records| == |s.records|
    ensures forall fh | 0 <= fh < |s.records| ::
              var r, r' := s.records[fh], Environment(s, a).records[fh];
              r'.(lending := r.lending) == r && r'.lending.closing == r.lending.closing
  {
    hide Lease, Unlease, Forget, Insert, Reparent, AddLink, RemoveLink, Sum;
  }

  /**
   * The table of handles changes at three kinds of step and nowhere else: the insertion after a counted open enters one
   * new handle of the operation's kind on the node opened, the start of a release withdraws the one it names, and the
   * release that won it starts its closing.
   */
  lemma HandlesMoveExactly(s: State, i: nat, a: Action)
    ensures HandlesMove(s, Next(s, i, a), i, a)
  {
    hide Next, HandlesMove;
    if i >= |s.threads| {
      EnvironmentMovesHandles(s, i, a);
    } else if a == Continue {
      ContinueMovesHandles(s, i);
    } else {
      OthersMoveHandles(s, i, a);
    }
  }

  /** No release of the handle starts along a schedule. */
  ghost predicate Unreleased(schedule: seq<(nat, Action)>, kind: Kind, ino: nat, fh: nat)
  {
    forall k | 0 <= k < |schedule| :: schedule[k].1 != StartRelease(kind, ino, fh)
  }

  /** A handle keeps its kind and node for good, is in the table until a release names it, and never comes back. */
  lemma {:induction false} HandlesStay(s: State, schedule: seq<(nat, Action)>, fh: nat)
    requires fh < |s.records|
    ensures var s' := Run(s, schedule);
            && fh < |s'.records|
            && s'.records[fh].kind == s.records[fh].kind && s'.records[fh].node == s.records[fh].node
            && (!s.records[fh].tabled ==> !s'.records[fh].tabled)
            && (Unreleased(schedule, s.records[fh].kind, s.records[fh].node.ino, fh) && s.records[fh].tabled ==>
                  s'.records[fh].tabled)
    decreases |schedule|
  {
    hide Next;
    if schedule != [] {
      var (before, last) := (schedule[..|schedule| - 1], schedule[|schedule| - 1]);
      HandlesStay(s, before, fh);
      HandlesMoveExactly(Run(s, before), last.0, last.1);
      assert HandleMoves(Run(s, before), Run(s, schedule), last.0, last.1, fh);
      assert Unreleased(schedule, s.records[fh].kind, s.records[fh].node.ino, fh) ==>
          Unreleased(before, s.records[fh].kind, s.records[fh].node.ino, fh);
      assert last == schedule[|schedule| - 1];
    }
  }

  // ---------- the node table outside the counters ----------

  /** What a step makes of a slot's links: the filesystem alone moves them. */
  ghost function LinksAfter(s: State, i: nat, a: Action, ino: nat): nat
    requires ino in s.table.slots
  {
    var links := s.table.slots[ino].links;
    if i >= |s.threads| && a == FsAddLink(ino) then links + 1
    else if i >= |s.threads| && a == FsRemoveLink(ino) then SaturatingSub(links, 1)
    else links
  }

  ghost function ParentAfter(s: State, i: nat, a: Action, ino: nat): nat
    requires ino in s.table.slots
  {
    if i >= |s.threads| && a.FsReparent? && a.ino == ino then a.parent else s.table.slots[ino].parent
  }

  ghost predicate SlotMoves(s: State, t': Table<()>, i: nat, a: Action, ino: nat)
    requires ino in s.table.slots
  {
    if ino in t'.slots then
      && t'.slots[ino].links == LinksAfter(s, i, a, ino) && t'.slots[ino].parent == ParentAfter(s, i, a, ino)
      && t'.slots[ino].record == s.table.slots[ino].record
      && t'.slots[ino].generation == s.table.slots[ino].generation
    else LinksAfter(s, i, a, ino) == 0
  }

  ghost predicate SlotsMove(s: State, t': Table<()>, i: nat, a: Action)
  {
    && (forall ino | ino in s.table.slots :: SlotMoves(s, t', i, a, ino))
    && (if i >= |s.threads| && a.FsInsert? then
          && |t'.log| == |s.table.log| + 1 && t'.log[..|s.table.log|] == s.table.log
          && var ino := t'.log[|s.table.log|].ino;
             && ino !in s.table.slots && t'.slots.Keys == s.table.slots.Keys + {ino}
             && t'.slots[ino].links == 1 && t'.slots[ino].parent == a.parent
             && t'.slots[ino].record == |s.table.log|
        else t'.log == s.table.log && t'.slots.Keys <= s.table.slots.Keys)
  }

  lemma OpenMovesSlots(s: State, i: nat)
    requires i < |s.threads|
    ensures SlotsMove(s, ContinueOpen(s, i).table, i, Continue)
  {}

  lemma EntryMovesSlots(s: State, i: nat)
    requires i < |s.threads|
    ensures SlotsMove(s, ContinueEntry(s, i).table, i, Continue)
  {}

  lemma UseMovesSlots(s: State, i: nat)
    requires i < |s.threads|
    ensures SlotsMove(s, ContinueUse(s, i).table, i, Continue)
  {
    hide GiveBack;
  }

  lemma ReleaseMovesSlots(s: State, i: nat)
    requires i < |s.threads|
    ensures SlotsMove(s, ContinueRelease(s, i).table, i, Continue)
  {
    hide Close, TakeOrSleep, Consume;
  }

  lemma OthersMoveSlots(s: State, i: nat, a: Action)
    requires i < |s.threads| && a != Continue
    ensures SlotsMove(s, Next(s, i, a).table, i, a)
  {}

  lemma InsertMovesSlots(s: State, i: nat, a: Action)
    requires i >= |s.threads| && Exact(s.table) && a.FsInsert?
    ensures SlotsMove(s, Next(s, i, a).table, i, a)
  {
    hide Exact, Insert, Alloc;
    InsertedParts(s.table, (), a.parent);
  }

  lemma LinkMovesSlots(s: State, i: nat, a: Action)
    requires i >= |s.threads| && (a.FsReparent? || a.FsAddLink? || a.FsRemoveLink?)
    ensures SlotsMove(s, Next(s, i, a).table, i, a)
  {}

  lemma ForgetMovesSlots(s: State, i: nat, a: Action)
    requires i >= |s.threads| && a.KernelForget?
    ensures SlotsMove(s, Next(s, i, a).table, i, a)
  {}

  lemma LeaseMovesSlots(s: State, i: nat, a: Action)
    requires i >= |s.threads| && (a.FsGet? || a.FsDropRef?)
    ensures SlotsMove(s, Next(s, i, a).table, i, a)
  {}

  lemma NothingMovesSlots(s: State, i: nat, a: Action)
    requires i >= |s.threads| && !a.FsInsert? && !a.FsReparent? && !a.FsAddLink? && !a.FsRemoveLink?
    requires !a.KernelForget? && !a.FsGet? && !a.FsDropRef?
    ensures SlotsMove(s, Next(s, i, a).table, i, a)
  {
    hide Finalize, Sum;
  }

  /**
   * Outside the counters the runtime leaves the node table alone: links and parents move only where the filesystem says
   * so, an inode appears only when the filesystem inserts one, with one link and the parent given, and an inode that
   * goes had no link left.
   */
  lemma SlotsMoveExactly(s: State, i: nat, a: Action)
    requires Inv(s)
    ensures SlotsMove(s, Next(s, i, a).table, i, a)
  {
    hide SlotsMove, Exact, ContinueOpen, ContinueEntry, ContinueUse, ContinueRelease;
    if i >= |s.threads| {
      match a
      case FsInsert(_) => InsertMovesSlots(s, i, a);
      case FsReparent(_, _) => LinkMovesSlots(s, i, a);
      case FsAddLink(_) => LinkMovesSlots(s, i, a);
      case FsRemoveLink(_) => LinkMovesSlots(s, i, a);
      case KernelForget(_, _) => ForgetMovesSlots(s, i, a);
      case FsGet(_) => LeaseMovesSlots(s, i, a);
      case FsDropRef(_) => LeaseMovesSlots(s, i, a);
      case _ => NothingMovesSlots(s, i, a);
    } else if a == Continue {
      OpenMovesSlots(s, i);
      EntryMovesSlots(s, i);
      UseMovesSlots(s, i);
      ReleaseMovesSlots(s, i);
    } else {
      OthersMoveSlots(s, i, a);
    }
  }

  /** The lookups a step tells the kernel of. */
  ghost function Told(s: State, i: nat, a: Action): multiset<NodeRef>
  {
    if i >= |s.threads| then multiset{}
    else
      match (s.threads[i], a)
      case (EntryReply(entry), Return(_)) => multiset{entry.Ref()}
      case (PlusReply(accepted), Return(ok)) => if ok then multiset(accepted) else multiset{}
      case _ => multiset{}
  }

  /**
   * The kernel owes a forget for exactly the lookups of the replies it was sent, and the filesystem holds exactly the
   * leases it took: only a forget, and only dropping a lease, takes one back, and no more than there is.
   */
  lemma KernelAndFilesystemHold(s: State, i: nat, a: Action, r: NodeRef)
    ensures var s', outside := Next(s, i, a), i >= |s.threads|;
            && s'.kernel[r] == s.kernel[r] + Told(s, i, a)[r] -
                 (if outside && a.KernelForget? && a.r == r && a.count <= s.kernel[r] then a.count else 0)
            && s'.fsRefs[r] ==
                 if outside && a.FsGet? && s.table.Current(r) && a.ino == r.ino then s.fsRefs[r] + 1
                 else if outside && a == FsDropRef(r) then SaturatingSub(s.fsRefs[r], 1)
                 else s.fsRefs[r]
  {
    hide Lease, Unlease, Retain, Forget, AddOpen, RemoveOpen, Insert, Reparent, AddLink, RemoveLink;
    hide TakeOrSleep, Borrow, GiveBack, Consume, Finalize, Sum, Close;
    hide ContinueOpen, ContinueEntry, ContinueUse, ContinueRelease;
    if i < |s.threads| { ContinuingHolds(s, i); }
  }

  lemma ContinuingHolds(s: State, i: nat)
    requires i < |s.threads|
    ensures ContinueOpen(s, i).kernel == s.kernel && ContinueOpen(s, i).fsRefs == s.fsRefs
    ensures ContinueEntry(s, i).kernel == s.kernel && ContinueEntry(s, i).fsRefs == s.fsRefs
    ensures ContinueUse(s, i).kernel == s.kernel && ContinueUse(s, i).fsRefs == s.fsRefs
    ensures ContinueRelease(s, i).kernel == s.kernel && ContinueRelease(s, i).fsRefs == s.fsRefs
  {
    hide Lease, Unlease, Retain, Forget, AddOpen, RemoveOpen, TakeOrSleep, Borrow, GiveBack, Consume, Close;
  }

  lemma RecordIsOk(s: State, fh: nat)
    requires Inv(s) && fh < |s.records|
    ensures RecordOk(s, fh)
  {}

  /** The last owner of a record that is out of the table drops it, and its payload with it if that was not taken. */
  lemma UnusedRecordsAreDropped(s: State, i: nat, fh: nat)
    requires Reachable(s) && i >= |s.threads| && fh < |s.records|
    ensures var record, record' := s.records[fh], Next(s, i, DropRecord(fh)).records[fh];
            if !record.tabled && forall j | 0 <= j < |s.threads| :: RecordOf(s.threads[j]) != Some(fh)
            then record'.lending.finalized && record'.lending.consumed == 1
            else record' == record
    ensures Next(s, i, SpuriousWake(fh)).records[fh].lending.waiters == {}
  {
    hide Inv, Sum, Reachable;
    ReachableHolds(s);
    RecordIsOk(s, fh);
    if forall j | 0 <= j < |s.threads| :: RecordOf(s.threads[j]) != Some(fh) {
      WeighsNothing(s.threads, Refers(fh));
      WeighsNothing(s.threads, Taking(fh));
    } else {
      var j :| 0 <= j < |s.threads| && RecordOf(s.threads[j]) == Some(fh);
      SumCovers(s.threads, j, Refers(fh));
    }
  }
}
