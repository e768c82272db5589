/**
 * typed_fuse_core/src/runtime.rs: every interleaving of the runtime's operations.
 *
 * A thread is a program counter with its local variables; one step is one critical section
 * (or one callback of the filesystem, during which no lock of the runtime is held). A schedule
 * is any sequence of steps. The record half of every `NodeRef` below is history: it names the
 * incarnation an inode number stood for, and no step looks at it except the drop of a
 * `NodeRef`, which compares record pointers as the code does.
 */
module Runtime {
  import opened Base
  import opened Nodes
  import opened Handles

  /** An `EntryReply`: whose attributes it carries, and whose generation. */
  datatype Entry = Entry(ino: nat, generation: nat, attrsOf: nat, record: nat)
  {
    function Ref(): NodeRef { NodeRef(ino, record) }
  }

  datatype Pc =
    | Idle
    // open, opendir
    | OpenCall(kind: Kind, r: NodeRef)
    | OpenCount(kind: Kind, r: NodeRef)
    | OpenTable(kind: Kind, r: NodeRef)
    | Dropping(r: NodeRef)
    // read, write, flush, getattr with a handle, readdir, ...; `plus` is readdirplus
    | UseFind(kind: Kind, r: NodeRef, fh: nat, plus: bool)
    | UseAcquire(r: NodeRef, fh: nat, plus: bool)
    | Using(r: NodeRef, fh: nat)
    | PlusUsing(r: NodeRef, fh: nat, accepted: seq<NodeRef>)
    | PlusRetain(r: NodeRef, fh: nat, accepted: seq<NodeRef>, ino: nat)
    | PlusUndo(r: NodeRef, fh: nat, accepted: seq<NodeRef>)
    | PlusDone(r: NodeRef, fh: nat, accepted: seq<NodeRef>)
    | PlusDrop(r: NodeRef, accepted: seq<NodeRef>)
    | PlusReply(accepted: seq<NodeRef>)
    | PlusFail(accepted: seq<NodeRef>)
    // release, releasedir
    | RelNode(r: NodeRef, fh: nat)
    | RelCount(r: NodeRef, fh: nat)
    | RelClose(r: NodeRef, fh: nat)
    | RelWait(r: NodeRef, fh: nat)
    | RelTake(r: NodeRef, fh: nat)
    | RelCall(r: NodeRef, fh: nat)
    // lookup, mknod, mkdir, symlink, link and create, from the callback's return on
    | EntryGet(ino: nat, create: bool)
    | EntryAttr(r: NodeRef, create: bool)
    | EntryCount(r: NodeRef, attrsOf: nat, create: bool)
    | EntryDrop(r: NodeRef, entry: Entry, create: bool)
    | CreateCount(entry: Entry)
    | CreateTable(entry: Entry)
    | EntryReply(entry: Entry)

  /** `fsRefs` are the leases the filesystem itself holds, `kernel` the lookups replied to and not yet forgotten. */
  datatype State = State(
    table: Table<()>, records: seq<Record>, threads: seq<Pc>,
    fsRefs: multiset<NodeRef>, kernel: multiset<NodeRef>)
  {
    function At(i: nat, pc: Pc): State
      requires i < |threads|
    {
      this.(threads := threads[i := pc])
    }

    function Lend(fh: nat, l: Lending): State
      requires fh < |records|
    {
      this.(records := Relent(records, fh, l))
    }
  }

  datatype Action =
    | StartOpen(kind: Kind, ino: nat)
    | StartUse(kind: Kind, ino: nat, fh: nat, plus: bool)
    | StartRelease(kind: Kind, ino: nat, fh: nat)
    | StartEntry(ino: nat, create: bool)
    | Continue                              // the next critical section of an operation under way
    | Return(ok: bool)                      // a callback returns, or a reply is sent
    | Emit(ino: nat, accepted: bool)        // a readdirplus callback emits an entry
    // steps no runtime thread takes
    | KernelForget(r: NodeRef, count: nat)
    | FsInsert(parent: nat)
    | FsGet(ino: nat)
    | FsDropRef(r: NodeRef)
    | FsReparent(ino: nat, parent: nat)
    | FsAddLink(ino: nat)
    | FsRemoveLink(ino: nat)
    | SpuriousWake(fh: nat)
    | DropRecord(fh: nat)

  // ---------- counting ----------

  datatype Counter = Leases | Opens | Lookups

  datatype Metric =
    | Counts(c: Counter, r: NodeRef)
    | Lent(fh: nat)
    | Taking(fh: nat)
    | Refers(fh: nat)

  /** The `NodeRef` a thread holds. */
  function LeaseOf(pc: Pc): Option<NodeRef>
  {
    match pc
    case OpenCall(_, r) => Some(r) case OpenCount(_, r) => Some(r) case OpenTable(_, r) => Some(r)
    case Dropping(r) => Some(r)
    case UseFind(_, r, _, _) => Some(r) case UseAcquire(r, _, _) => Some(r) case Using(r, _) => Some(r)
    case PlusUsing(r, _, _) => Some(r) case PlusRetain(r, _, _, _) => Some(r) case PlusUndo(r, _, _) => Some(r)
    case PlusDone(r, _, _) => Some(r) case PlusDrop(r, _) => Some(r)
    case RelCount(r, _) => Some(r) case RelClose(r, _) => Some(r) case RelWait(r, _) => Some(r)
    case RelTake(r, _) => Some(r) case RelCall(r, _) => Some(r)
    case EntryAttr(r, _) => Some(r) case EntryCount(r, _, _) => Some(r) case EntryDrop(r, _, _) => Some(r)
    case _ => None
  }

  /** The open a thread has counted on a node while no table entry stands for it. */
  function OpenOf(pc: Pc): Option<NodeRef>
  {
    match pc
    case OpenTable(_, r) => Some(r)
    case CreateTable(entry) => Some(entry.Ref())
    case RelNode(r, _) => Some(r)
    case RelCount(r, _) => Some(r)
    case _ => None
  }

  /** The lookups a thread has counted and not yet replied with. */
  function LookupsOf(pc: Pc): multiset<NodeRef>
  {
    match pc
    case EntryDrop(_, entry, _) => multiset{entry.Ref()}
    case CreateCount(entry) => multiset{entry.Ref()}
    case CreateTable(entry) => multiset{entry.Ref()}
    case EntryReply(entry) => multiset{entry.Ref()}
    case PlusUsing(_, _, accepted) => multiset(accepted)
    case PlusRetain(_, _, accepted, _) => multiset(accepted)
    case PlusUndo(_, _, accepted) => multiset(accepted)
    case PlusDone(_, _, accepted) => multiset(accepted)
    case PlusDrop(_, accepted) => multiset(accepted)
    case PlusReply(accepted) => multiset(accepted)
    case PlusFail(accepted) => multiset(accepted)
    case _ => multiset{}
  }

  /** The handle a thread holds a lease of: the states in which it may touch the payload. */
  function LentTo(pc: Pc): Option<nat>
  {
    match pc
    case Using(_, fh) => Some(fh)
    case PlusUsing(_, fh, _) => Some(fh) case PlusRetain(_, fh, _, _) => Some(fh)
    case PlusUndo(_, fh, _) => Some(fh) case PlusDone(_, fh, _) => Some(fh)
    case _ => None
  }

  /** The handle a thread won from the table and has not consumed. */
  function TakerOf(pc: Pc): Option<nat>
  {
    match pc
    case RelNode(_, fh) => Some(fh) case RelCount(_, fh) => Some(fh) case RelClose(_, fh) => Some(fh)
    case RelWait(_, fh) => Some(fh) case RelTake(_, fh) => Some(fh)
    case _ => None
  }

  /** The record a thread holds an `Arc` of. */
  function RecordOf(pc: Pc): Option<nat>
  {
    match pc
    case UseAcquire(_, fh, _) => Some(fh)
    case RelCall(_, fh) => Some(fh)
    case _ => if LentTo(pc).Some? then LentTo(pc) else TakerOf(pc)
  }

  function Weight(m: Metric, pc: Pc): nat
  {
    match m
    case Counts(Leases, r) => if LeaseOf(pc) == Some(r) then 1 else 0
    case Counts(Opens, r) => if OpenOf(pc) == Some(r) then 1 else 0
    case Counts(Lookups, r) => LookupsOf(pc)[r]
    case Lent(fh) => if LentTo(pc) == Some(fh) then 1 else 0
    case Taking(fh) => if TakerOf(pc) == Some(fh) then 1 else 0
    case Refers(fh) => if RecordOf(pc) == Some(fh) then 1 else 0
  }

  function Sum(threads: seq<Pc>, m: Metric): nat
  {
    if threads == [] then 0
    else Sum(threads[..|threads| - 1], m) + Weight(m, threads[|threads| - 1])
  }

  /** The tabled handles bound to a node. */
  function Tabled(records: seq<Record>, r: NodeRef): nat
  {
    if records == [] then 0
    else
      var last := records[|records| - 1];
      Tabled(records[..|records| - 1], r) + (if last.tabled && last.node == r then 1 else 0)
  }

  // ---------- one step ----------

  function Start(s: State, i: nat, a: Action): State
    requires i < |s.threads|
  {
    match a
    case StartOpen(kind, ino) =>
      if ino in s.table.slots then s.At(i, OpenCall(kind, s.table.RefOf(ino))).(table := Lease(s.table, ino)) else s
    case StartUse(kind, ino, fh, plus) =>
      if ino in s.table.slots && (plus ==> kind == Dir) then
        s.At(i, UseFind(kind, s.table.RefOf(ino), fh, plus)).(table := Lease(s.table, ino))
      else s
    case StartRelease(kind, ino, fh) =>
      if Findable(s.records, kind, ino, fh) then
        s.At(i, RelNode(s.records[fh].node, fh)).(records := Withdrawn(s.records, fh))
      else s
    case StartEntry(ino, create) => s.At(i, EntryGet(ino, create))
    case _ => s
  }

  function AddRecord(s: State, kind: Kind, r: NodeRef): State
  {
    s.(records := Entered(s.records, kind, r))
  }

  /** open, opendir and the tail of create. A failing `add_open` drops the opened payload. */
  function ContinueOpen(s: State, i: nat): State
    requires i < |s.threads|
  {
    match s.threads[i]
    case OpenCount(kind, r) =>
      if r.ino in s.table.slots then s.At(i, OpenTable(kind, r)).(table := AddOpen(s.table, r.ino))
      else s.At(i, Dropping(r))
    case OpenTable(kind, r) => AddRecord(s.At(i, Dropping(r)), kind, r)
    case Dropping(r) => s.At(i, Idle).(table := Unlease(s.table, r))
    case CreateCount(entry) =>
      if entry.ino in s.table.slots then s.At(i, CreateTable(entry)).(table := AddOpen(s.table, entry.ino))
      else s.At(i, Idle)
    case CreateTable(entry) => AddRecord(s.At(i, EntryReply(entry)), File, entry.Ref())
    case _ => s
  }

  function ContinueUse(s: State, i: nat): State
    requires i < |s.threads|
  {
    match s.threads[i]
    case UseFind(kind, r, fh, plus) =>
      if Findable(s.records, kind, r.ino, fh) then
        s.At(i, UseAcquire(r, fh, plus))
      else s.At(i, Dropping(r))
    case UseAcquire(r, fh, plus) =>
      if fh >= |s.records| || s.records[fh].lending.closing then s.At(i, Dropping(r))
      else s.At(i, if plus then PlusUsing(r, fh, []) else Using(r, fh)).Lend(fh, Borrow(s.records[fh].lending))
    case PlusRetain(r, fh, accepted, ino) =>
      if ino in s.table.slots then
        s.At(i, PlusUsing(r, fh, accepted + [s.table.RefOf(ino)])).(table := Retain(s.table, ino))
      else s.At(i, PlusUsing(r, fh, accepted))
    case PlusUndo(r, fh, accepted) =>
      if accepted == [] then s.At(i, PlusDone(r, fh, []))
      else s.At(i, PlusUndo(r, fh, accepted[1..])).(table := Forget(s.table, accepted[0].ino, 1))
    case PlusDone(r, fh, accepted) =>
      if fh >= |s.records| then s
      else s.At(i, PlusDrop(r, accepted)).Lend(fh, GiveBack(s.records[fh].lending))
    case PlusDrop(r, accepted) => s.At(i, PlusReply(accepted)).(table := Unlease(s.table, r))
    case PlusFail(accepted) =>
      if accepted == [] then s.At(i, Idle)
      else s.At(i, PlusFail(accepted[1..])).(table := Forget(s.table, accepted[0].ino, 1))
    case _ => s
  }

  function ContinueRelease(s: State, i: nat): State
    requires i < |s.threads|
  {
    match s.threads[i]
    case RelNode(r, fh) =>
      if r.ino in s.table.slots then s.At(i, RelCount(s.table.RefOf(r.ino), fh)).(table := Lease(s.table, r.ino))
      else s.At(i, Idle)
    case RelCount(r, fh) => s.At(i, RelClose(r, fh)).(table := RemoveOpen(s.table, r.ino))
    case RelClose(r, fh) =>
      if fh >= |s.records| then s
      else
        var l := Close(s.records[fh].lending, i);
        s.At(i, if l.taken then RelTake(r, fh) else RelWait(r, fh)).Lend(fh, l)
    case RelWait(r, fh) =>
      if fh >= |s.records| || i in s.records[fh].lending.waiters then s
      else
        var l := TakeOrSleep(s.records[fh].lending, i);
        s.At(i, if l.taken then RelTake(r, fh) else RelWait(r, fh)).Lend(fh, l)
    case RelTake(r, fh) =>
      if fh >= |s.records| then s
      else s.At(i, RelCall(r, fh)).Lend(fh, Consume(s.records[fh].lending))
    case _ => s
  }

  function ContinueEntry(s: State, i: nat): State
    requires i < |s.threads|
  {
    match s.threads[i]
    case EntryGet(ino, create) =>
      if ino in s.table.slots then s.At(i, EntryAttr(s.table.RefOf(ino), create)).(table := Lease(s.table, ino))
      else s.At(i, Idle)
    case EntryCount(r, attrsOf, create) =>
      if r.ino in s.table.slots then
        var slot := s.table.slots[r.ino];
        s.At(i, EntryDrop(r, Entry(r.ino, slot.generation, attrsOf, slot.record), create))
          .(table := Retain(s.table, r.ino))
      else s.At(i, Dropping(r))
    case EntryDrop(r, entry, create) =>
      s.At(i, if create then CreateCount(entry) else EntryReply(entry)).(table := Unlease(s.table, r))
    case _ => s
  }

  function Returned(s: State, i: nat, ok: bool): State
    requires i < |s.threads|
  {
    match s.threads[i]
    case OpenCall(kind, r) => s.At(i, if ok then OpenCount(kind, r) else Dropping(r))
    case Using(r, fh) =>
      if fh >= |s.records| then s else s.At(i, Dropping(r)).Lend(fh, GiveBack(s.records[fh].lending))
    case PlusUsing(r, fh, accepted) =>
      s.At(i, if ok then PlusDone(r, fh, accepted) else PlusUndo(r, fh, accepted))
    case PlusReply(accepted) =>
      if ok then s.At(i, Idle).(kernel := s.kernel + multiset(accepted)) else s.At(i, PlusFail(accepted))
    case RelCall(r, fh) => s.At(i, Dropping(r))
    case EntryAttr(r, create) => s.At(i, if ok then EntryCount(r, r.record, create) else Dropping(r))
    case EntryReply(entry) => s.At(i, Idle).(kernel := s.kernel + multiset{entry.Ref()})
    case _ => s
  }

  /** `plus_entry` and the reply buffer, for an entry of any name but `.` and `..`. */
  function Emitted(s: State, i: nat, ino: nat, accepted: bool): State
    requires i < |s.threads|
  {
    match s.threads[i]
    case PlusUsing(r, fh, list) =>
      if ino in s.table.slots && accepted then s.At(i, PlusRetain(r, fh, list, ino)) else s
    case _ => s
  }

  function Environment(s: State, a: Action): State
  {
    match a
    case KernelForget(r, count) =>
      if count <= s.kernel[r] then
        s.(table := Forget(s.table, r.ino, count), kernel := s.kernel[r := s.kernel[r] - count])
      else s
    case FsInsert(parent) => s.(table := Insert(s.table, (), parent).1)
    case FsGet(ino) =>
      if ino in s.table.slots then
        var r := s.table.RefOf(ino);
        s.(table := Lease(s.table, ino), fsRefs := s.fsRefs[r := s.fsRefs[r] + 1])
      else s
    case FsDropRef(r) =>
      if r in s.fsRefs then s.(table := Unlease(s.table, r), fsRefs := s.fsRefs[r := s.fsRefs[r] - 1]) else s
    case FsReparent(ino, parent) => s.(table := Reparent(s.table, ino, parent))
    case FsAddLink(ino) => s.(table := AddLink(s.table, ino))
    case FsRemoveLink(ino) => s.(table := RemoveLink(s.table, ino))
    case SpuriousWake(fh) =>
      if fh < |s.records| then s.Lend(fh, s.records[fh].lending.(waiters := {})) else s
    case DropRecord(fh) =>
      if fh < |s.records| && !s.records[fh].tabled && !s.records[fh].lending.finalized
         && Sum(s.threads, Refers(fh)) == 0
      then s.Lend(fh, Finalize(s.records[fh].lending))
      else s
    case _ => s
  }

  /** Thread `i` (or the environment) takes one step; a step that is not enabled changes nothing. */
  function Next(s: State, i: nat, a: Action): State
  {
    if i >= |s.threads| then Environment(s, a)
    else
      match a
      case Continue =>
        var pc := s.threads[i];
        if pc.OpenCount? || pc.OpenTable? || pc.Dropping? || pc.CreateCount? || pc.CreateTable? then ContinueOpen(s, i)
        else if pc.EntryGet? || pc.EntryCount? || pc.EntryDrop? then ContinueEntry(s, i)
        else if TakerOf(pc).Some? then ContinueRelease(s, i)
        else ContinueUse(s, i)
      case Return(ok) => Returned(s, i, ok)
      case Emit(ino, accepted) => Emitted(s, i, ino, accepted)
      case _ => if s.threads[i].Idle? then Start(s, i, a) else s
  }

  function Initially(threads: nat): State
  {
    State(Nodes.Initial(()), [], seq(threads, i => Idle), multiset{}, multiset{})
  }

  function Run(s: State, schedule: seq<(nat, Action)>): State
  {
    if schedule == [] then s
    else
      var last := schedule[|schedule| - 1];
      Next(Run(s, schedule[..|schedule| - 1]), last.0, last.1)
  }

  // ---------- the invariant ----------

  /** A counter of the slot that still holds the record `r` was taken on. */
  function On(t: Table<()>, c: Counter, r: NodeRef): nat
  {
    if !t.Current(r) then 0
    else match c
      case Leases => t.slots[r.ino].leases
      case Opens => t.slots[r.ino].opens
      case Lookups => t.slots[r.ino].lookups
  }

  function Outside(s: State, c: Counter, r: NodeRef): nat
  {
    match c
    case Leases => s.fsRefs[r]
    case Opens => Tabled(s.records, r)
    case Lookups => s.kernel[r]
  }

  /** Every counter of every slot equals the references that stand for it, and no reference is stale. */
  ghost predicate Balanced(s: State)
  {
    forall c, r :: On(s.table, c, r) == Sum(s.threads, Counts(c, r)) + Outside(s, c, r)
  }

  ghost predicate RecordOk(s: State, fh: nat)
    requires fh < |s.records|
  {
    var record, l := s.records[fh], s.records[fh].lending;
    var takers := Sum(s.threads, Taking(fh));
    && l.active == Sum(s.threads, Lent(fh))
    && (if record.tabled then 1 else 0) + takers + l.consumed <= 1
    && (record.tabled ==> !l.closing)
    && (l.taken ==> l.closing && l.active == 0 && takers + l.consumed == 1)
    && (l.consumed == 1 ==> l.taken || l.finalized)
    && (l.finalized ==> l.consumed == 1 && !record.tabled && Sum(s.threads, Refers(fh)) == 0)
    && (l.waiters != {} ==> l.closing && l.active > 0)
    && (forall w | w in l.waiters :: w < |s.threads| && s.threads[w].RelWait? && s.threads[w].fh == fh)
  }

  ghost predicate EntryOk(t: Table<()>, e: Entry)
  {
    e.attrsOf == e.record && e.record < |t.log| && t.log[e.record] == Issue(e.ino, e.generation)
  }

  ghost predicate ThreadOk(s: State, pc: Pc)
  {
    && (RecordOf(pc).Some? ==>
          && RecordOf(pc).value < |s.records|
          && s.records[RecordOf(pc).value].node == pc.r)
    && (pc.RelNode? || pc.RelCount? || pc.RelClose? ==> !s.records[pc.fh].lending.closing)
    && (pc.RelWait? ==> s.records[pc.fh].lending.closing && !s.records[pc.fh].lending.taken)
    && (pc.RelTake? ==> s.records[pc.fh].lending.taken)
    && (pc.RelCall? ==> s.records[pc.fh].lending.taken && s.records[pc.fh].lending.consumed == 1)
    && (pc.EntryCount? ==> pc.attrsOf == pc.r.record)
    && (pc.EntryDrop? || pc.CreateCount? || pc.CreateTable? || pc.EntryReply? ==> EntryOk(s.table, pc.entry))
  }

  ghost predicate Inv(s: State)
  {
    && Exact(s.table)
    && Balanced(s)
    && (forall fh | 0 <= fh < |s.records| :: RecordOk(s, fh))
    && (forall i | 0 <= i < |s.threads| :: ThreadOk(s, s.threads[i]))
  }
}
