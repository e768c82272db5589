/**
 * What each operation of the runtime answers and leaves behind, whatever all other threads, the kernel and the
 * filesystem do between its steps. A path below lists the program counters an operation goes through, one for each step
 * of its own thread; `Idle` at its end is the operation's return.
 */
module RuntimeAnswers {
  import opened Base
  import opened Nodes
  import opened Handles
  import opened Runtime
  import opened RuntimeProofs
  import opened RuntimeTheorems
  import opened RuntimeSteps

  // ---------- walking through an operation amid all others ----------

  /** What thread `i` itself does along a schedule. */
  function Own(schedule: seq<(nat, Action)>, i: nat): seq<Action>
  {
    if schedule == [] then []
    else
      var last := schedule[|schedule| - 1];
      Own(schedule[..|schedule| - 1], i) + (if last.0 == i then [last.1] else [])
  }

  ghost predicate Stands(s: State, i: nat, pc: Pc)
  {
    i < |s.threads| && s.threads[i] == pc
  }

  /** Wherever `p` holds, the action takes a thread from `pc` to `pc'`. */
  ghost predicate Goes(p: State -> bool, pc: Pc, a: Action, pc': Pc)
  {
    forall t, i: nat {:trigger Next(t, i, a)} | Inv(t) && p(t) && Stands(t, i, pc) :: Stands(Next(t, i, a), i, pc')
  }

  /** `p` holds before every step of a schedule. */
  ghost predicate Throughout(p: State -> bool, s: State, schedule: seq<(nat, Action)>)
  {
    forall k | 0 <= k < |schedule| :: p(Run(s, schedule[..k]))
  }

  lemma ThroughoutBefore(p: State -> bool, s: State, schedule: seq<(nat, Action)>)
    requires schedule != [] && Throughout(p, s, schedule)
    ensures Throughout(p, s, schedule[..|schedule| - 1]) && p(Run(s, schedule[..|schedule| - 1]))
  {
    hide Run;
    var before := schedule[..|schedule| - 1];
    forall k | 0 <= k < |before| ensures p(Run(s, before[..k])) {
      assert before[..k] == schedule[..k];
    }
  }

  /** A thread that does what its operation does next goes its way, whatever all others do in between. */
  lemma {:induction false} Walk(
    p: State -> bool, s: State, schedule: seq<(nat, Action)>, i: nat, acts: seq<Action>, path: seq<Pc>)
    requires Inv(s) && |path| == |acts| + 1 && Stands(s, i, path[0])
    requires Throughout(p, s, schedule) && Own(schedule, i) <= acts
    requires forall k | 0 <= k < |acts| :: Goes(p, path[k], acts[k], path[k + 1])
    ensures Inv(Run(s, schedule)) && Stands(Run(s, schedule), i, path[|Own(schedule, i)|])
    decreases |schedule|
  {
    hide Inv, Next, Goes, Throughout;
    if schedule != [] {
      var (before, last) := (schedule[..|schedule| - 1], schedule[|schedule| - 1]);
      ThroughoutBefore(p, s, schedule);
      Walk(p, s, before, i, acts, path);
      var mid := Run(s, before);
      NextKeeps(mid, last.0, last.1);
      if last.0 == i {
        var k := |Own(before, i)|;
        assert Own(schedule, i)[k] == acts[k];
        GoesOn(p, mid, i, path[k], acts[k], path[k + 1]);
      } else {
        OthersLeaveThread(mid, i, last.0, last.1);
      }
    }
  }

  lemma GoesOn(p: State -> bool, s: State, i: nat, pc: Pc, a: Action, pc': Pc)
    requires Goes(p, pc, a, pc') && Inv(s) && p(s) && Stands(s, i, pc)
    ensures Stands(Next(s, i, a), i, pc')
  {
    hide Inv, Next;
  }

  predicate Always(s: State)
  {
    true
  }

  /** The last step of almost every operation drops its node. */
  lemma DroppingGoes(p: State -> bool, r: NodeRef)
    ensures Goes(p, Dropping(r), Continue, Idle)
  {
    hide Inv;
  }

  // ---------- open and opendir ----------

  lemma OpenGoes(kind: Kind, r: NodeRef)
    ensures Goes(Always, OpenCall(kind, r), Return(true), OpenCount(kind, r))
    ensures Goes(Always, OpenCall(kind, r), Return(false), Dropping(r))
    ensures Goes(Always, OpenCount(kind, r), Continue, OpenTable(kind, r))
    ensures Goes(Always, OpenTable(kind, r), Continue, Dropping(r))
  {
    hide Inv, On, Sum, ContinueUse, ContinueRelease, ContinueEntry, AddOpen, Unlease;
    forall t, i: nat | Inv(t) && Stands(t, i, OpenCount(kind, r))
      ensures Stands(Next(t, i, Continue), i, OpenTable(kind, r))
    {
      LeaseIsWeighed(t.threads[i], r);
      Pinned(t, i, Leases, r);
    }
  }

  function OpenPath(kind: Kind, r: NodeRef, ok: bool): seq<Pc>
  {
    if ok then [OpenCall(kind, r), OpenCount(kind, r), OpenTable(kind, r), Dropping(r), Idle]
    else [OpenCall(kind, r), Dropping(r), Idle]
  }

  /**
   * An open or opendir of a live inode leases its current incarnation, calls the filesystem, and if that agrees counts
   * the open, enters the handle and drops the lease; if not it only drops the lease. An unknown inode is refused.
   */
  lemma OpenAnswers(s: State, i: nat, kind: Kind, ino: nat, ok: bool, schedule: seq<(nat, Action)>)
    requires Reachable(s) && Stands(s, i, Idle)
    requires Own(schedule, i) <= if ok then [Return(true), Continue, Continue, Continue] else [Return(false), Continue]
    ensures ino !in s.table.slots ==> Next(s, i, StartOpen(kind, ino)) == s
    ensures ino in s.table.slots ==>
              var s' := Run(Next(s, i, StartOpen(kind, ino)), schedule);
              Stands(s', i, OpenPath(kind, s.table.RefOf(ino), ok)[|Own(schedule, i)|])
  {
    hide Inv, Goes, Own, Run, Lease;
    ReachableHolds(s);
    if ino in s.table.slots {
      var s1, r := Next(s, i, StartOpen(kind, ino)), s.table.RefOf(ino);
      NextKeeps(s, i, StartOpen(kind, ino));
      OpenGoes(kind, r);
      DroppingGoes(Always, r);
      var acts := if ok then [Return(true), Continue, Continue, Continue] else [Return(false), Continue];
      Walk(Always, s1, schedule, i, acts, OpenPath(kind, r, ok));
    }
  }

  // ---------- operations on a handle ----------

  /** Whether the handle is in the table, of that kind and for that inode. */
  ghost predicate Matches(s: State, kind: Kind, ino: nat, fh: nat)
  {
    fh < |s.records| && s.records[fh].tabled && s.records[fh].kind == kind && s.records[fh].node.ino == ino
  }

  ghost function Matching(kind: Kind, ino: nat, fh: nat, matches: bool): State -> bool
  {
    t => Matches(t, kind, ino, fh) == matches
  }

  ghost function IsClosing(fh: nat, closing: bool): State -> bool
  {
    (t: State) => fh < |t.records| && t.records[fh].lending.closing == closing
  }

  function Served(r: NodeRef, fh: nat, plus: bool): Pc
  {
    if plus then PlusUsing(r, fh, []) else Using(r, fh)
  }

  lemma FindGoes(kind: Kind, r: NodeRef, fh: nat, plus: bool)
    ensures Goes(Matching(kind, r.ino, fh, true), UseFind(kind, r, fh, plus), Continue, UseAcquire(r, fh, plus))
    ensures Goes(Matching(kind, r.ino, fh, false), UseFind(kind, r, fh, plus), Continue, Dropping(r))
  {
    hide Inv;
  }

  lemma AcquireGoes(r: NodeRef, fh: nat, plus: bool)
    ensures Goes(IsClosing(fh, false), UseAcquire(r, fh, plus), Continue, Served(r, fh, plus))
    ensures Goes(IsClosing(fh, true), UseAcquire(r, fh, plus), Continue, Dropping(r))
  {
    hide Inv;
  }

  lemma TabledIsOpen(s: State, fh: nat)
    requires Inv(s) && fh < |s.records| && s.records[fh].tabled
    ensures !s.records[fh].lending.closing
  {
    hide Sum;
    RecordIsOk(s, fh);
  }

  lemma AcquireTabledGoes(kind: Kind, r: NodeRef, fh: nat, plus: bool)
    ensures Goes(Matching(kind, r.ino, fh, true), UseAcquire(r, fh, plus), Continue, Served(r, fh, plus))
  {
    hide Inv;
    var p := Matching(kind, r.ino, fh, true);
    forall t, i: nat | Inv(t) && p(t) && Stands(t, i, UseAcquire(r, fh, plus))
      ensures Stands(Next(t, i, Continue), i, Served(r, fh, plus))
    {
      TabledIsOpen(t, fh);
    }
  }

  lemma MatchesThroughout(s: State, schedule: seq<(nat, Action)>, kind: Kind, ino: nat, fh: nat, matches: bool)
    requires if matches then Matches(s, kind, ino, fh) && Unreleased(schedule, kind, ino, fh)
             else !Matches(s, kind, ino, fh) && (fh < |s.records| || fh >= |Run(s, schedule).records|)
    ensures Throughout(Matching(kind, ino, fh, matches), s, schedule)
  {
    hide Run;
    forall k | 0 <= k < |schedule| ensures Matching(kind, ino, fh, matches)(Run(s, schedule[..k])) {
      if fh < |s.records| {
        HandlesStay(s, schedule[..k], fh);
      } else {
        HandlesRemain(s, schedule, k);
      }
    }
  }

  lemma {:induction false} HandlesRemain(s: State, schedule: seq<(nat, Action)>, k: nat)
    requires k <= |schedule|
    ensures |Run(s, schedule[..k]).records| <= |Run(s, schedule).records|
    decreases |schedule|
  {
    hide Next;
    if k < |schedule| {
      var (before, last) := (schedule[..|schedule| - 1], schedule[|schedule| - 1]);
      HandlesRemain(s, before, k);
      assert before[..k] == schedule[..k];
      HandlesMoveExactly(Run(s, before), last.0, last.1);
    } else {
      assert schedule[..k] == schedule;
    }
  }

  /**
   * An operation that looks its handle up finds it exactly if it is in the table, of its kind and for its inode, and
   * then gets to use it unless a release of it starts in between; otherwise it drops its node and ends (EBADF).
   */
  lemma FindAnswers(s: State, i: nat, kind: Kind, r: NodeRef, fh: nat, plus: bool, schedule: seq<(nat, Action)>)
    requires Inv(s) && Stands(s, i, UseFind(kind, r, fh, plus)) && Own(schedule, i) <= [Continue, Continue]
    ensures Matches(s, kind, r.ino, fh) && Unreleased(schedule, kind, r.ino, fh) ==>
              Stands(Run(s, schedule), i,
                [UseFind(kind, r, fh, plus), UseAcquire(r, fh, plus), Served(r, fh, plus)][|Own(schedule, i)|])
    ensures !Matches(s, kind, r.ino, fh) && (fh < |s.records| || fh >= |Run(s, schedule).records|) ==>
              Stands(Run(s, schedule), i, [UseFind(kind, r, fh, plus), Dropping(r), Idle][|Own(schedule, i)|])
  {
    hide Inv, Goes, Own, Run, Throughout, Matches, Unreleased;
    FindGoes(kind, r, fh, plus);
    AcquireTabledGoes(kind, r, fh, plus);
    DroppingGoes(Matching(kind, r.ino, fh, false), r);
    var start := UseFind(kind, r, fh, plus);
    if Matches(s, kind, r.ino, fh) && Unreleased(schedule, kind, r.ino, fh) {
      MatchesThroughout(s, schedule, kind, r.ino, fh, true);
      Walk(Matching(kind, r.ino, fh, true), s, schedule, i, [Continue, Continue],
           [start, UseAcquire(r, fh, plus), Served(r, fh, plus)]);
    }
    if !Matches(s, kind, r.ino, fh) && (fh < |s.records| || fh >= |Run(s, schedule).records|) {
      MatchesThroughout(s, schedule, kind, r.ino, fh, false);
      Walk(Matching(kind, r.ino, fh, false), s, schedule, i, [Continue, Continue], [start, Dropping(r), Idle]);
    }
  }

  /** An operation with a handle leases the current incarnation of a live inode first and then looks the handle up. */
  lemma UseAnswers(
    s: State, i: nat, kind: Kind, ino: nat, fh: nat, plus: bool, schedule: seq<(nat, Action)>)
    requires Reachable(s) && Stands(s, i, Idle) && (plus ==> kind == Dir)
    requires Own(schedule, i) <= [Continue, Continue]
    ensures var s1 := Next(s, i, StartUse(kind, ino, fh, plus));
            if ino !in s.table.slots then s1 == s
            else
              var (r, s', k) := (s.table.RefOf(ino), Run(s1, schedule), |Own(schedule, i)|);
              && (Matches(s, kind, ino, fh) && Unreleased(schedule, kind, ino, fh) ==>
                    Stands(s', i, [UseFind(kind, r, fh, plus), UseAcquire(r, fh, plus), Served(r, fh, plus)][k]))
              && (!Matches(s, kind, ino, fh) && (fh < |s.records| || fh >= |s'.records|) ==>
                    Stands(s', i, [UseFind(kind, r, fh, plus), Dropping(r), Idle][k]))
  {
    hide Inv, Own, Run, Lease, Unreleased;
    ReachableHolds(s);
    NextKeeps(s, i, StartUse(kind, ino, fh, plus));
    if ino in s.table.slots {
      FindAnswers(Next(s, i, StartUse(kind, ino, fh, plus)), i, kind, s.table.RefOf(ino), fh, plus, schedule);
    }
  }

  lemma {:induction false} ClosingRemains(s: State, schedule: seq<(nat, Action)>, k: nat, fh: nat)
    requires k <= |schedule| && fh < |s.records|
    ensures fh < |Run(s, schedule[..k]).records| && fh < |Run(s, schedule).records|
    ensures Run(s, schedule[..k]).records[fh].lending.closing ==> Run(s, schedule).records[fh].lending.closing
    decreases |schedule|
  {
    hide Next;
    if k < |schedule| {
      var (before, last) := (schedule[..|schedule| - 1], schedule[|schedule| - 1]);
      ClosingRemains(s, before, k, fh);
      assert before[..k] == schedule[..k];
      NextEvolves(Run(s, before), last.0, last.1, fh);
    } else {
      assert schedule[..k] == schedule;
      RunKeepsRecord(s, schedule, fh);
    }
  }

  /** A record that was found is lent exactly if it is not closing by then, and the payload is used once it is lent. */
  lemma AcquireAnswers(s: State, i: nat, r: NodeRef, fh: nat, plus: bool, schedule: seq<(nat, Action)>)
    requires Reachable(s) && Stands(s, i, UseAcquire(r, fh, plus)) && fh < |s.records|
    ensures fh < |Run(s, schedule).records|
    ensures Own(schedule, i) <= [Continue, Continue] && s.records[fh].lending.closing ==>
              Stands(Run(s, schedule), i, [UseAcquire(r, fh, plus), Dropping(r), Idle][|Own(schedule, i)|])
    ensures Own(schedule, i) <= [Continue] && !Run(s, schedule).records[fh].lending.closing ==>
              Stands(Run(s, schedule), i, [UseAcquire(r, fh, plus), Served(r, fh, plus)][|Own(schedule, i)|])
  {
    hide Inv, Goes, Own, Run, Throughout;
    ReachableHolds(s);
    AcquireGoes(r, fh, plus);
    DroppingGoes(IsClosing(fh, true), r);
    RunKeepsRecord(s, schedule, fh);
    var start, closing := UseAcquire(r, fh, plus), s.records[fh].lending.closing;
    if closing || !Run(s, schedule).records[fh].lending.closing {
      assert Throughout(IsClosing(fh, closing), s, schedule) by {
        ClosingThroughout(s, schedule, fh);
      }
    }
    if Own(schedule, i) <= [Continue, Continue] && closing {
      Walk(IsClosing(fh, true), s, schedule, i, [Continue, Continue], [start, Dropping(r), Idle]);
    }
    if Own(schedule, i) <= [Continue] && !Run(s, schedule).records[fh].lending.closing {
      Walk(IsClosing(fh, false), s, schedule, i, [Continue], [start, Served(r, fh, plus)]);
    }
  }

  lemma ClosingThroughout(s: State, schedule: seq<(nat, Action)>, fh: nat)
    requires fh < |s.records| && fh < |Run(s, schedule).records|
    requires s.records[fh].lending.closing || !Run(s, schedule).records[fh].lending.closing
    ensures Throughout(IsClosing(fh, s.records[fh].lending.closing), s, schedule)
  {
    hide Run;
    forall k | 0 <= k < |schedule|
      ensures IsClosing(fh, s.records[fh].lending.closing)(Run(s, schedule[..k]))
    {
      RunKeepsRecord(s, schedule[..k], fh);
      ClosingRemains(s, schedule, k, fh);
    }
  }

  /** The callback returns, the handle lease is given back, the node is dropped. */
  lemma UseEnds(s: State, i: nat, r: NodeRef, fh: nat, ok: bool, schedule: seq<(nat, Action)>)
    requires Reachable(s) && Stands(s, i, Using(r, fh)) && Own(schedule, i) <= [Return(ok), Continue]
    ensures Stands(Run(s, schedule), i, [Using(r, fh), Dropping(r), Idle][|Own(schedule, i)|])
  {
    hide Inv, Goes, Own, Run, Throughout;
    ReachableHolds(s);
    DroppingGoes(Always, r);
    UsingGoes(r, fh, ok);
    assert Throughout(Always, s, schedule) by { AlwaysThroughout(s, schedule); }
    Walk(Always, s, schedule, i, [Return(ok), Continue], [Using(r, fh), Dropping(r), Idle]);
  }

  lemma AlwaysThroughout(s: State, schedule: seq<(nat, Action)>)
    ensures Throughout(Always, s, schedule)
  {}

  lemma UsingGoes(r: NodeRef, fh: nat, ok: bool)
    ensures Goes(Always, Using(r, fh), Return(ok), Dropping(r))
  {
    hide Inv;
    forall t, i: nat | Inv(t) && Stands(t, i, Using(r, fh))
      ensures Stands(Next(t, i, Return(ok)), i, Dropping(r))
    {
      ThreadIsOk(t, i);
    }
  }

  /**
   * What an open leaves behind, for good: the step that inserts the handle (opens, opendirs and creates alike) gives it
   * the next number, its operation's kind and the node opened, and no other handle changes. Whatever happens next, as
   * long as no release of it starts, whoever looks that number up for that kind and inode gets to use it, and whoever
   * looks it up as the other kind, or for another inode, does not.
   */
  lemma OpenedHandlesServe(
    s: State, i: nat, kind: Kind, r: NodeRef, before: seq<(nat, Action)>,
    j: nat, asked: Kind, r2: NodeRef, plus: bool, after: seq<(nat, Action)>)
    requires Reachable(s) && i < |s.threads|
    requires s.threads[i] == OpenTable(kind, r) ||
             (kind == File && s.threads[i].CreateTable? && s.threads[i].entry.Ref() == r)
    ensures var fh, s1 := |s.records|, Next(s, i, Continue);
            var s2 := Run(s1, before);
            var s3 := Run(s2, after);
            var k := |Own(after, j)|;
            && s1.records[..fh] == s.records && |s1.records| == fh + 1
            && s1.records[fh].kind == kind && s1.records[fh].node == r && s1.records[fh].tabled
            && s1.records[fh].lending.active == 0 && s1.records[fh].lending.consumed == 0
            && (Stands(s2, j, UseFind(asked, r2, fh, plus)) && Own(after, j) <= [Continue, Continue] ==>
                  if asked == kind && r2.ino == r.ino then
                    Unreleased(before, kind, r.ino, fh) && Unreleased(after, kind, r.ino, fh) ==>
                      Stands(s3, j, [UseFind(asked, r2, fh, plus), UseAcquire(r2, fh, plus), Served(r2, fh, plus)][k])
                  else Stands(s3, j, [UseFind(asked, r2, fh, plus), Dropping(r2), Idle][k]))
  {
    hide Inv, Own, Run, Next, Unreleased, Goes;
    var fh, s1 := |s.records|, Next(s, i, Continue);
    var s2 := Run(s1, before);
    ReachableHolds(s);
    NextKeeps(s, i, Continue);
    EnteringLeaves(s, i);
    HandlesStay(s1, before, fh);
    RunKeeps(s1, before);
    if Stands(s2, j, UseFind(asked, r2, fh, plus)) && Own(after, j) <= [Continue, Continue] {
      FindAnswers(s2, j, asked, r2, fh, plus, after);
    }
  }

  lemma EnteringLeaves(s: State, i: nat)
    requires i < |s.threads| && Entering(s, i, Continue).Some?
    ensures var s', fh := Next(s, i, Continue), |s.records|;
            && |s'.records| == fh + 1 && s'.records[..fh] == s.records
            && s'.records[fh] == Record(Entering(s, i, Continue).value.0, Entering(s, i, Continue).value.1, true, FRESH)
  {
    hide ContinueUse, ContinueRelease, ContinueEntry;
  }

  lemma {:induction false} RunKeeps(s: State, schedule: seq<(nat, Action)>)
    requires Inv(s)
    ensures Inv(Run(s, schedule))
    decreases |schedule|
  {
    hide Inv, Next;
    if schedule != [] {
      var (before, last) := (schedule[..|schedule| - 1], schedule[|schedule| - 1]);
      RunKeeps(s, before);
      NextKeeps(Run(s, before), last.0, last.1);
    }
  }

  // ---------- release and releasedir ----------

  /** Where a release is after `k` steps of its own: how often it waits depends on the leases others hold. */
  ghost predicate Releasing(pc: Pc, r: NodeRef, fh: nat, k: nat)
  {
    if k == 0 then pc == RelNode(r, fh)
    else if k == 1 then pc == RelCount(r, fh)
    else if k == 2 then pc == RelClose(r, fh)
    else pc == RelWait(r, fh) || pc == RelTake(r, fh) || pc == RelCall(r, fh)
  }

  lemma ReleasingGoes(s: State, i: nat, r: NodeRef, fh: nat, k: nat)
    requires Inv(s) && i < |s.threads| && Releasing(s.threads[i], r, fh, k)
    ensures i < |Next(s, i, Continue).threads| && Releasing(Next(s, i, Continue).threads[i], r, fh, k + 1)
    ensures s.threads[i].RelTake? ==> Next(s, i, Continue).threads[i].RelCall?
    ensures s.threads[i].RelCall? ==> Next(s, i, Continue).threads[i].RelCall?
  {
    hide Inv, On, Sum, Lease, RemoveOpen;
    ThreadIsOk(s, i);
    if k == 0 {
      InvParts(s);
      Pinned(s, i, Opens, r);
    }
  }

  /**
   * A release or releasedir wins its handle exactly if it is in the table, of its kind and for its inode: it leaves
   * the table at once and for good, so that no later lookup or release finds it, and the operation goes on to close
   * that handle, to take its payload exactly once and to pass it to the filesystem. Otherwise nothing changes (EBADF).
   */
  lemma {:induction false} ReleaseAnswers(
    s: State, i: nat, kind: Kind, ino: nat, fh: nat, schedule: seq<(nat, Action)>)
    requires Reachable(s) && Stands(s, i, Idle)
    requires forall k | 0 <= k < |Own(schedule, i)| :: Own(schedule, i)[k] == Continue
    ensures var s1 := Next(s, i, StartRelease(kind, ino, fh));
            if !Matches(s, kind, ino, fh) then s1 == s
            else
              var s' := Run(s1, schedule);
              && i < |s'.threads| && fh < |s'.records| && !s'.records[fh].tabled
              && Releasing(s'.threads[i], s.records[fh].node, fh, |Own(schedule, i)|)
              && (s'.threads[i].RelCall? ==> s'.records[fh].lending.consumed == 1)
  {
    hide Inv, Own, Run, Next;
    ReachableHolds(s);
    var s1 := Next(s, i, StartRelease(kind, ino, fh));
    NextKeeps(s, i, StartRelease(kind, ino, fh));
    ReleaseStarts(s, i, kind, ino, fh);
    if Matches(s, kind, ino, fh) {
      HandlesStay(s1, schedule, fh);
      ReleaseGoesOn(s1, i, s.records[fh].node, fh, schedule);
      ThreadIsOk(Run(s1, schedule), i);
    }
  }

  lemma ReleaseStarts(s: State, i: nat, kind: Kind, ino: nat, fh: nat)
    requires Stands(s, i, Idle)
    ensures var s1 := Next(s, i, StartRelease(kind, ino, fh));
            if !Matches(s, kind, ino, fh) then s1 == s
            else
              && Stands(s1, i, RelNode(s.records[fh].node, fh)) && fh < |s1.records|
              && !s1.records[fh].tabled && Releasing(s1.threads[i], s.records[fh].node, fh, 0)
  {}

  lemma {:induction false} ReleaseGoesOn(s: State, i: nat, r: NodeRef, fh: nat, schedule: seq<(nat, Action)>)
    requires Inv(s) && i < |s.threads| && Releasing(s.threads[i], r, fh, 0)
    requires forall k | 0 <= k < |Own(schedule, i)| :: Own(schedule, i)[k] == Continue
    ensures Inv(Run(s, schedule)) && i < |Run(s, schedule).threads|
    ensures Releasing(Run(s, schedule).threads[i], r, fh, |Own(schedule, i)|)
    decreases |schedule|
  {
    hide Inv, Next, Releasing;
    if schedule != [] {
      var (before, last) := (schedule[..|schedule| - 1], schedule[|schedule| - 1]);
      assert forall k | 0 <= k < |Own(before, i)| :: Own(before, i)[k] == Own(schedule, i)[k];
      ReleaseGoesOn(s, i, r, fh, before);
      var mid := Run(s, before);
      NextKeeps(mid, last.0, last.1);
      if last.0 == i {
        assert Own(schedule, i)[|Own(before, i)|] == last.1;
        ReleasingGoes(mid, i, r, fh, |Own(before, i)|);
      } else {
        OthersLeaveThread(mid, i, last.0, last.1);
      }
    }
  }

  ghost function Unlent(fh: nat): State -> bool
  {
    (t: State) => fh < |t.records| && t.records[fh].lending.active == 0
  }

  lemma CloseGoes(r: NodeRef, fh: nat, ok: bool)
    ensures Goes(Unlent(fh), RelClose(r, fh), Continue, RelTake(r, fh))
    ensures Goes(Unlent(fh), RelTake(r, fh), Continue, RelCall(r, fh))
    ensures Goes(Always, RelCall(r, fh), Return(ok), Dropping(r))
  {
    hide Inv, On, Sum, ContinueUse, ContinueOpen, ContinueEntry;
  }

  /** A release whose handle nobody uses does not wait; after its callback only the node is dropped. */
  lemma ReleaseEnds(s: State, i: nat, r: NodeRef, fh: nat, ok: bool, schedule: seq<(nat, Action)>)
    requires Reachable(s)
    ensures Stands(s, i, RelClose(r, fh)) && Throughout(Unlent(fh), s, schedule)
            && Own(schedule, i) <= [Continue, Continue] ==>
              Stands(Run(s, schedule), i, [RelClose(r, fh), RelTake(r, fh), RelCall(r, fh)][|Own(schedule, i)|])
    ensures Stands(s, i, RelCall(r, fh)) && Own(schedule, i) <= [Return(ok), Continue] ==>
              Stands(Run(s, schedule), i, [RelCall(r, fh), Dropping(r), Idle][|Own(schedule, i)|])
  {
    hide Inv, Goes, Own, Run, Throughout;
    ReachableHolds(s);
    CloseGoes(r, fh, ok);
    DroppingGoes(Always, r);
    AlwaysThroughout(s, schedule);
    if Stands(s, i, RelClose(r, fh)) && Throughout(Unlent(fh), s, schedule)
       && Own(schedule, i) <= [Continue, Continue]
    {
      Walk(Unlent(fh), s, schedule, i, [Continue, Continue], [RelClose(r, fh), RelTake(r, fh), RelCall(r, fh)]);
    }
    if Stands(s, i, RelCall(r, fh)) && Own(schedule, i) <= [Return(ok), Continue] {
      Walk(Always, s, schedule, i, [Return(ok), Continue], [RelCall(r, fh), Dropping(r), Idle]);
    }
  }

  // ---------- entry replies and create ----------

  ghost function Issued(r: NodeRef, generation: nat): State -> bool
  {
    (t: State) => r.record < |t.table.log| && t.table.log[r.record] == Issue(r.ino, generation)
  }

  lemma EntryGoes(r: NodeRef, generation: nat, create: bool)
    ensures Goes(Issued(r, generation), EntryAttr(r, create), Return(true), EntryCount(r, r.record, create))
    ensures Goes(Issued(r, generation), EntryAttr(r, create), Return(false), Dropping(r))
  {
    hide Inv, On, Sum, ContinueUse, ContinueRelease, ContinueEntry, Unlease;
  }

  lemma EntryCountGoes(r: NodeRef, generation: nat, create: bool)
    ensures Goes(Issued(r, generation), EntryCount(r, r.record, create), Continue,
                 EntryDrop(r, Entry(r.ino, generation, r.record, r.record), create))
  {
    hide Inv, On, Sum, Exact, Balanced, Counted, Weight, Next;
    forall t, i: nat | Inv(t) && Issued(r, generation)(t) && Stands(t, i, EntryCount(r, r.record, create))
      ensures Stands(Next(t, i, Continue), i, EntryDrop(r, Entry(r.ino, generation, r.record, r.record), create))
    {
      LeaseIsWeighed(t.threads[i], r);
      Pinned(t, i, Leases, r);
      InvParts(t);
      LiveSlotIsLogged(t.table, r.ino);
      EntryIsCounted(t, i, r, generation, create);
    }
  }

  lemma EntryIsCounted(t: State, i: nat, r: NodeRef, generation: nat, create: bool)
    requires Stands(t, i, EntryCount(r, r.record, create)) && t.table.Current(r)
    requires t.table.slots[r.ino].generation == generation
    ensures Stands(Next(t, i, Continue), i, EntryDrop(r, Entry(r.ino, generation, r.record, r.record), create))
  {}

  lemma EntryDropGoes(p: State -> bool, r: NodeRef, entry: Entry, create: bool)
    ensures Goes(p, EntryDrop(r, entry, create), Continue, if create then CreateCount(entry) else EntryReply(entry))
  {
    hide Inv;
  }

  lemma EntryReplyGoes(p: State -> bool, entry: Entry, sent: bool)
    ensures Goes(p, CreateTable(entry), Continue, EntryReply(entry))
    ensures Goes(p, EntryReply(entry), Return(sent), Idle)
  {
    hide Inv;
  }

  lemma CreateCountGoes(r: NodeRef, entry: Entry, generation: nat)
    ensures Goes(Issued(r, generation), CreateCount(entry), Continue, CreateTable(entry))
  {
    hide Inv, On, Sum;
    forall t, i: nat | Inv(t) && Stands(t, i, CreateCount(entry))
      ensures Stands(Next(t, i, Continue), i, CreateTable(entry))
    {
      EntryWeighs(t.threads[i], entry);
      Pinned(t, i, Lookups, entry.Ref());
    }
  }

  /** Incarnations once issued stay in the log. */
  lemma LogStays(s: State, i: nat, a: Action)
    requires Inv(s)
    ensures Grown(s.table, Next(s, i, a).table)
  {
    hide SlotsMove, SlotMoves, Inv, Next;
    SlotsMoveExactly(s, i, a);
    SlotsMoveLogs(s, Next(s, i, a).table, i, a);
  }

  lemma SlotsMoveLogs(s: State, t': Table<()>, i: nat, a: Action)
    requires SlotsMove(s, t', i, a)
    ensures Grown(s.table, t')
  {}

  lemma {:induction false} IssuedThroughout(
    s: State, schedule: seq<(nat, Action)>, r: NodeRef, generation: nat)
    requires Inv(s) && Issued(r, generation)(s)
    ensures Throughout(Issued(r, generation), s, schedule) && Issued(r, generation)(Run(s, schedule))
    decreases |schedule|
  {
    hide Inv, Next;
    if schedule != [] {
      var (before, last) := (schedule[..|schedule| - 1], schedule[|schedule| - 1]);
      IssuedThroughout(s, before, r, generation);
      RunKeeps(s, before);
      var mid := Run(s, before);
      LogStays(mid, last.0, last.1);
      var mid' := Next(mid, last.0, last.1);
      assert mid'.table.log[r.record] == mid'.table.log[..|mid.table.log|][r.record];
      forall k | 0 <= k < |schedule| ensures Issued(r, generation)(Run(s, schedule[..k])) {
        assert schedule[..k] == before[..k];
        assert before[..|before|] == before;
        assert k < |before| ==> Issued(r, generation)(Run(s, before[..k]));
      }
    }
  }

  function EntryPath(r: NodeRef, entry: Entry, create: bool): seq<Pc>
  {
    [EntryAttr(r, create), EntryCount(r, r.record, create), EntryDrop(r, entry, create)] +
      (if create then [CreateCount(entry), CreateTable(entry)] else []) + [EntryReply(entry), Idle]
  }

  function EntryActs(create: bool, sent: bool): seq<Action>
  {
    [Return(true), Continue, Continue] + (if create then [Continue, Continue] else []) + [Return(sent)]
  }

  /**
   * The reply to lookup, mknod, mkdir, symlink, link and create names the inode the filesystem returned, with the
   * generation and the attributes of the incarnation that was live when it was leased; create opens a file handle on
   * that same incarnation first. If the attributes cannot be had the node is dropped and nothing else happens; an
   * inode that is gone already is refused.
   */
  lemma EntryAnswers(
    s: State, i: nat, ino: nat, create: bool, sent: bool, schedule: seq<(nat, Action)>)
    requires Reachable(s) && Stands(s, i, EntryGet(ino, create))
    ensures var (s1, own) := (Next(s, i, Continue), Own(schedule, i));
            if ino !in s.table.slots then s1 == s.(threads := s.threads[i := Idle])
            else
              var r := s.table.RefOf(ino);
              var entry := Entry(ino, s.table.slots[ino].generation, r.record, r.record);
              && (own <= EntryActs(create, sent) ==>
                    Stands(Run(s1, schedule), i, EntryPath(r, entry, create)[|own|]))
              && (own <= [Return(false), Continue] ==>
                    Stands(Run(s1, schedule), i, [EntryAttr(r, create), Dropping(r), Idle][|own|]))
  {
    hide Inv, Goes, Own, Run, Throughout, Next, Issued;
    ReachableHolds(s);
    NextKeeps(s, i, Continue);
    EntryStarts(s, i, ino, create);
    if ino in s.table.slots {
      var (s1, own, r, g) := (Next(s, i, Continue), Own(schedule, i), s.table.RefOf(ino),
        s.table.slots[ino].generation);
      var entry := Entry(ino, g, r.record, r.record);
      EntryGoes(r, g, create);
      DroppingGoes(Issued(r, g), r);
      EntryCountGoes(r, g, create);
      EntryDropGoes(Issued(r, g), r, entry, create);
      EntryReplyGoes(Issued(r, g), entry, sent);
      CreateCountGoes(r, entry, g);
      IssuedThroughout(s1, schedule, r, g);
      if own <= EntryActs(create, sent) {
        Walk(Issued(r, g), s1, schedule, i, EntryActs(create, sent), EntryPath(r, entry, create));
      }
      if own <= [Return(false), Continue] {
        Walk(Issued(r, g), s1, schedule, i, [Return(false), Continue], [EntryAttr(r, create), Dropping(r), Idle]);
      }
    }
  }

  lemma EntryStarts(s: State, i: nat, ino: nat, create: bool)
    requires Inv(s) && Stands(s, i, EntryGet(ino, create))
    ensures var s1 := Next(s, i, Continue);
            if ino !in s.table.slots then s1 == s.(threads := s.threads[i := Idle])
            else
              && Stands(s1, i, EntryAttr(s.table.RefOf(ino), create))
              && Issued(s.table.RefOf(ino), s.table.slots[ino].generation)(s1)
  {
    hide Inv, Exact;
    InvParts(s);
    if ino in s.table.slots { LiveSlotIsLogged(s.table, ino); }
  }

  /** Any thread at rest may take up an entry reply for whatever inode its callback returned. */
  lemma EntryBegins(s: State, i: nat, ino: nat, create: bool)
    requires Stands(s, i, Idle)
    ensures Next(s, i, StartEntry(ino, create)) == s.(threads := s.threads[i := EntryGet(ino, create)])
  {}

  // ---------- readdirplus ----------

  ghost function Live(ref: NodeRef): State -> bool
  {
    (t: State) => t.table.Current(ref)
  }

  ghost function Gone(ino: nat): State -> bool
  {
    (t: State) => ino !in t.table.slots
  }

  lemma EmitGoes(r: NodeRef, fh: nat, list: seq<NodeRef>, ref: NodeRef, accepted: bool)
    ensures Goes(Live(ref), PlusUsing(r, fh, list), Emit(ref.ino, true), PlusRetain(r, fh, list, ref.ino))
    ensures Goes(Always, PlusUsing(r, fh, list), Emit(ref.ino, false), PlusUsing(r, fh, list))
    ensures Goes(Gone(ref.ino), PlusUsing(r, fh, list), Emit(ref.ino, accepted), PlusUsing(r, fh, list))
  {
    hide Inv;
  }

  lemma RetainGoes(r: NodeRef, fh: nat, list: seq<NodeRef>, ref: NodeRef)
    ensures Goes(Live(ref), PlusRetain(r, fh, list, ref.ino), Continue, PlusUsing(r, fh, list + [ref]))
    ensures Goes(Gone(ref.ino), PlusRetain(r, fh, list, ref.ino), Continue, PlusUsing(r, fh, list))
  {
    hide Inv;
  }

  /**
   * An entry joins the listing, with a lookup of the live incarnation it names, exactly if its inode is there when it
   * is emitted and when it is counted and the buffer accepts it.
   */
  lemma EmitAnswers(
    s: State, i: nat, r: NodeRef, fh: nat, list: seq<NodeRef>, ref: NodeRef, accepted: bool,
    schedule: seq<(nat, Action)>)
    requires Reachable(s)
    ensures var (s', k, start) := (Run(s, schedule), |Own(schedule, i)|, PlusUsing(r, fh, list));
            && (Stands(s, i, start) && Own(schedule, i) <= [Emit(ref.ino, true), Continue]
                && Throughout(Live(ref), s, schedule) ==>
                  Stands(s', i, [start, PlusRetain(r, fh, list, ref.ino), PlusUsing(r, fh, list + [ref])][k]))
            && (Stands(s, i, start) && Own(schedule, i) <= [Emit(ref.ino, accepted)]
                && (!accepted || Throughout(Gone(ref.ino), s, schedule)) ==>
                  Stands(s', i, start))
            && (Stands(s, i, PlusRetain(r, fh, list, ref.ino)) && Own(schedule, i) <= [Continue]
                && Throughout(Gone(ref.ino), s, schedule) ==>
                  Stands(s', i, [PlusRetain(r, fh, list, ref.ino), start][k]))
  {
    hide Inv, Goes, Own, Run, Throughout;
    ReachableHolds(s);
    EmitGoes(r, fh, list, ref, accepted);
    RetainGoes(r, fh, list, ref);
    AlwaysThroughout(s, schedule);
    var (own, start, retain) := (Own(schedule, i), PlusUsing(r, fh, list), PlusRetain(r, fh, list, ref.ino));
    if Stands(s, i, start) && own <= [Emit(ref.ino, true), Continue] && Throughout(Live(ref), s, schedule) {
      Walk(Live(ref), s, schedule, i, [Emit(ref.ino, true), Continue],
           [start, retain, PlusUsing(r, fh, list + [ref])]);
    }
    if Stands(s, i, start) && own <= [Emit(ref.ino, accepted)] {
      if !accepted {
        Walk(Always, s, schedule, i, [Emit(ref.ino, accepted)], [start, start]);
      } else if Throughout(Gone(ref.ino), s, schedule) {
        Walk(Gone(ref.ino), s, schedule, i, [Emit(ref.ino, accepted)], [start, start]);
      }
    }
    if Stands(s, i, retain) && own <= [Continue] && Throughout(Gone(ref.ino), s, schedule) {
      Walk(Gone(ref.ino), s, schedule, i, [Continue], [retain, start]);
    }
  }

  function Continues(n: nat): seq<Action>
  {
    seq(n, k => Continue)
  }

  /** The way of a listing the filesystem fails: every accepted entry is forgotten and nothing is replied with. */
  function UndoPath(r: NodeRef, fh: nat, accepted: seq<NodeRef>): seq<Pc>
  {
    [PlusUsing(r, fh, accepted)] +
    seq(|accepted| + 1, k requires 0 <= k <= |accepted| => PlusUndo(r, fh, accepted[k..])) +
    [PlusDone(r, fh, []), PlusDrop(r, []), PlusReply([])]
  }

  /** The way of a listing whose reply cannot be sent. */
  function FailPath(accepted: seq<NodeRef>): seq<Pc>
  {
    [PlusReply(accepted)] + seq(|accepted| + 1, k requires 0 <= k <= |accepted| => PlusFail(accepted[k..])) + [Idle]
  }

  lemma UndoGoes(r: NodeRef, fh: nat, accepted: seq<NodeRef>)
    ensures Goes(Always, PlusUsing(r, fh, accepted), Return(false), PlusUndo(r, fh, accepted))
    ensures Goes(Always, PlusUndo(r, fh, accepted), Continue,
                 if accepted == [] then PlusDone(r, fh, []) else PlusUndo(r, fh, accepted[1..]))
  {
    hide Inv;
  }

  lemma FailGoes(accepted: seq<NodeRef>)
    ensures Goes(Always, PlusReply(accepted), Return(false), PlusFail(accepted))
    ensures Goes(Always, PlusFail(accepted), Continue, if accepted == [] then Idle else PlusFail(accepted[1..]))
  {
    hide Inv;
  }

  lemma DoneGoes(r: NodeRef, fh: nat, accepted: seq<NodeRef>)
    ensures Goes(Always, PlusUsing(r, fh, accepted), Return(true), PlusDone(r, fh, accepted))
    ensures Goes(Always, PlusDrop(r, accepted), Continue, PlusReply(accepted))
    ensures Goes(Always, PlusReply(accepted), Return(true), Idle)
  {
    hide Inv;
  }

  lemma GiveBackGoes(r: NodeRef, fh: nat, accepted: seq<NodeRef>)
    ensures Goes(Always, PlusDone(r, fh, accepted), Continue, PlusDrop(r, accepted))
  {
    hide Inv;
    forall t, i: nat | Inv(t) && Stands(t, i, PlusDone(r, fh, accepted))
      ensures Stands(Next(t, i, Continue), i, PlusDrop(r, accepted))
    {
      ThreadIsOk(t, i);
    }
  }

  lemma UndoPathGoes(r: NodeRef, fh: nat, accepted: seq<NodeRef>)
    ensures var (n, path) := (|accepted|, UndoPath(r, fh, accepted));
            var acts := [Return(false)] + Continues(n + 1) + [Continue, Continue];
            |path| == |acts| + 1 && forall k | 0 <= k < |acts| :: Goes(Always, path[k], acts[k], path[k + 1])
  {
    hide Goes;
    var (n, path) := (|accepted|, UndoPath(r, fh, accepted));
    var acts := [Return(false)] + Continues(n + 1) + [Continue, Continue];
    UndoGoes(r, fh, accepted);
    DoneGoes(r, fh, []);
    GiveBackGoes(r, fh, []);
    forall k | 0 <= k < |acts| ensures Goes(Always, path[k], acts[k], path[k + 1]) {
      if 1 <= k <= n + 1 {
        assert path[k] == PlusUndo(r, fh, accepted[k - 1..]);
        UndoGoes(r, fh, accepted[k - 1..]);
        if k <= n {
          assert accepted[k - 1..][1..] == accepted[k..];
          assert path[k + 1] == PlusUndo(r, fh, accepted[k..]);
        }
      }
    }
  }

  lemma FailPathGoes(accepted: seq<NodeRef>)
    ensures var (path, acts) := (FailPath(accepted), [Return(false)] + Continues(|accepted| + 1));
            |path| == |acts| + 1 && forall k | 0 <= k < |acts| :: Goes(Always, path[k], acts[k], path[k + 1])
  {
    hide Goes;
    var (n, path, acts) := (|accepted|, FailPath(accepted), [Return(false)] + Continues(|accepted| + 1));
    FailGoes(accepted);
    forall k | 0 <= k < |acts| ensures Goes(Always, path[k], acts[k], path[k + 1]) {
      if 1 <= k {
        assert path[k] == PlusFail(accepted[k - 1..]);
        FailGoes(accepted[k - 1..]);
        if k <= n {
          assert accepted[k - 1..][1..] == accepted[k..];
          assert path[k + 1] == PlusFail(accepted[k..]);
        }
      }
    }
  }

  /**
   * A listing the filesystem completes is replied with in full; one it fails is taken back entry by entry and replied
   * with empty; and one whose reply cannot be sent is taken back entry by entry after its handle and node are let go.
   */
  lemma ListingAnswers(s: State, i: nat, r: NodeRef, fh: nat, accepted: seq<NodeRef>, schedule: seq<(nat, Action)>)
    requires Reachable(s)
    ensures var (s', own, n) := (Run(s, schedule), Own(schedule, i), |accepted|);
            && (Stands(s, i, PlusUsing(r, fh, accepted)) && own <= [Return(true), Continue, Continue, Return(true)] ==>
                  Stands(s', i, [PlusUsing(r, fh, accepted), PlusDone(r, fh, accepted), PlusDrop(r, accepted),
                                 PlusReply(accepted), Idle][|own|]))
            && (Stands(s, i, PlusUsing(r, fh, accepted))
                && own <= [Return(false)] + Continues(n + 1) + [Continue, Continue] ==>
                  |own| <= n + 4 && Stands(s', i, UndoPath(r, fh, accepted)[|own|]))
            && (Stands(s, i, PlusReply(accepted)) && own <= [Return(false)] + Continues(n + 1) ==>
                  |own| <= n + 2 && Stands(s', i, FailPath(accepted)[|own|]))
  {
    hide Inv, Goes, Own, Run, Throughout;
    ReachableHolds(s);
    AlwaysThroughout(s, schedule);
    var (own, n) := (Own(schedule, i), |accepted|);
    if Stands(s, i, PlusUsing(r, fh, accepted)) && own <= [Return(true), Continue, Continue, Return(true)] {
      DoneGoes(r, fh, accepted);
      GiveBackGoes(r, fh, accepted);
      Walk(Always, s, schedule, i, [Return(true), Continue, Continue, Return(true)],
           [PlusUsing(r, fh, accepted), PlusDone(r, fh, accepted), PlusDrop(r, accepted), PlusReply(accepted), Idle]);
    }
    if Stands(s, i, PlusUsing(r, fh, accepted))
       && own <= [Return(false)] + Continues(n + 1) + [Continue, Continue]
    {
      UndoPathGoes(r, fh, accepted);
      Walk(Always, s, schedule, i, [Return(false)] + Continues(n + 1) + [Continue, Continue],
           UndoPath(r, fh, accepted));
    }
    if Stands(s, i, PlusReply(accepted)) && own <= [Return(false)] + Continues(n + 1) {
      FailPathGoes(accepted);
      Walk(Always, s, schedule, i, [Return(false)] + Continues(n + 1), FailPath(accepted));
    }
  }
}
