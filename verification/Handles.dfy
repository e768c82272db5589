/**
 * typed_fuse_core/src/runtime.rs: handle records, their leases, and the table that binds them to file handles.
 *
 * `Lending` is the value of a record's `HandleState` with its condition variable's queue and the number
 * of times the payload was consumed; its functions are the critical sections of the record's mutex.
 */
module Handles {
  import opened Base
  import opened Nodes

  datatype Kind = File | Dir

  datatype Lending = Lending(
    active: nat, closing: bool, taken: bool, waiters: set<nat>, consumed: nat, finalized: bool)

  const FRESH := Lending(0, false, false, {}, 0, false)

  /** `acquire`, on a record that is not closing. */
  function Borrow(l: Lending): Lending
  {
    l.(active := l.active + 1)
  }

  /** Dropping a `HandleLease`: the last one out of a closing record wakes every waiter. */
  function GiveBack(l: Lending): Lending
  {
    var active := SaturatingSub(l.active, 1);
    l.(active := active, waiters := if active == 0 && l.closing then {} else l.waiters)
  }

  /** One pass of the wait loop of `close_and_take`: leave with `taken` set, or sleep. */
  function TakeOrSleep(l: Lending, thread: nat): Lending
  {
    if l.active == 0 then l.(taken := true, waiters := l.waiters - {thread})
    else l.(waiters := l.waiters + {thread})
  }

  function Close(l: Lending, thread: nat): Lending
  {
    TakeOrSleep(l.(closing := true), thread)
  }

  /** `ManuallyDrop::take`, outside the mutex. */
  function Consume(l: Lending): Lending
  {
    l.(consumed := l.consumed + 1)
  }

  /** `HandleRecord::drop`. */
  function Finalize(l: Lending): Lending
  {
    l.(finalized := true, consumed := if l.taken then l.consumed else l.consumed + 1)
  }

  /**
   * The wait loop of `close_and_take`: in the k-th wait other threads give back `drops[k]` leases, none at a spurious
   * wakeup.
   */
  function Waited(l: Lending, thread: nat, drops: seq<nat>): Lending
    decreases |drops|
  {
    if l.taken || drops == [] then l else Waited(TakeOrSleep(GivenBack(l, drops[0]), thread), thread, drops[1..])
  }

  function GivenBack(l: Lending, n: nat): Lending
  {
    if n == 0 then l else GiveBack(GivenBack(l, n - 1))
  }

  /** A handle record and whether the table holds it: the record with number `fh` was given file handle `fh + 1`. */
  datatype Record = Record(kind: Kind, node: NodeRef, tabled: bool, lending: Lending)

  predicate Findable(records: seq<Record>, kind: Kind, ino: nat, fh: nat)
  {
    fh < |records| && records[fh].tabled && records[fh].kind == kind && records[fh].node.ino == ino
  }

  /** `add_file` and `add_dir`. */
  function Entered(records: seq<Record>, kind: Kind, node: NodeRef): seq<Record>
  {
    records + [Record(kind, node, true, FRESH)]
  }

  /** A removal from the table. */
  function Withdrawn(records: seq<Record>, fh: nat): seq<Record>
    requires fh < |records|
  {
    records[fh := records[fh].(tabled := false)]
  }

  /** A critical section of a record's own mutex. */
  function Relent(records: seq<Record>, fh: nat, l: Lending): seq<Record>
    requires fh < |records|
  {
    records[fh := records[fh].(lending := l)]
  }

  // ---------- the same, in place ----------

  function Total(drops: seq<nat>): nat
  {
    if drops == [] then 0 else Total(drops[..|drops| - 1]) + drops[|drops| - 1]
  }

  class HandleRecord {
    const kind: Kind
    const node: nat
    var active: nat
    var closing: bool
    var taken: bool
    ghost const incarnation: nat
    ghost var waiters: set<nat>
    ghost var consumed: nat
    ghost var finalized: bool

    ghost function Ref(): NodeRef
    {
      NodeRef(node, incarnation)
    }

    ghost function Value(): Lending
      reads this
    {
      Lending(active, closing, taken, waiters, consumed, finalized)
    }

    constructor (kind: Kind, node: nat, ghost incarnation: nat)
      ensures this.kind == kind && Ref() == NodeRef(node, incarnation) && Value() == FRESH
    {
      this.kind := kind;
      this.node := node;
      this.incarnation := incarnation;
      active, closing, taken := 0, false, false;
      waiters, consumed, finalized := {}, 0, false;
    }

    /** No lease is granted on a closing record. A `requires` bound is an overflow panic. */
    method Acquire() returns (granted: bool)
      requires active < U32_MAX
      modifies this
      ensures granted == !old(closing)
      ensures Value() == if granted then Borrow(old(Value())) else old(Value())
    {
      if closing { return false; }
      active := active + 1;
      granted := true;
    }

    method DropLease()
      modifies this
      ensures Value() == GiveBack(old(Value()))
    {
      active := SaturatingSub(active, 1);
      if active == 0 && closing {
        waiters := {};
      }
    }

    /**
     * `close_and_take` by `thread`, where `drops[k]` is the number of leases other threads drop
     * during the k-th wait (zero for a spurious wakeup). It leaves the loop during the first wait
     * in which the drops add up to the leases outstanding at the close, and in no other.
     */
    method CloseAndTake(ghost thread: nat, drops: seq<nat>) returns (waits: nat, payload: bool)
      requires !closing && !taken && consumed == 0 && waiters == {} && !finalized
      requires Total(drops) <= active
      modifies this
      ensures var l := Waited(Close(old(Value()), thread), thread, drops);
              payload == l.taken && Value() == if payload then Consume(l) else l
      ensures payload <==> Total(drops) == old(active)
      ensures waits <= |drops| && Total(drops[..waits]) + active == old(active)
      ensures payload && waits > 0 ==> Total(drops[..waits - 1]) < old(active)
      ensures !payload ==> waits == |drops|
      ensures Value() ==
              Lending(active, true, payload, if payload then {} else {thread}, if payload then 1 else 0, false)
      ensures payload ==> active == 0
    {
      ghost var end := Waited(Close(Value(), thread), thread, drops);
      closing := true;
      waits := 0;
      assert drops[..|drops|] == drops && drops[0..] == drops;
      while active != 0
        invariant waits <= |drops| && Total(drops[..waits]) + active == old(active)
        invariant waits > 0 ==> Total(drops[..waits - 1]) < old(active)
        invariant closing && !taken && consumed == 0 && !finalized && waiters <= {thread}
        invariant Waited(TakeOrSleep(Value(), thread), thread, drops[waits..]) == end
        decreases |drops| - waits
      {
        waiters := waiters + {thread};
        if waits == |drops| {
          return waits, false;
        }
        assert drops[..waits + 1][..waits] == drops[..waits];
        assert drops[waits..][1..] == drops[waits + 1..];
        TotalGrows(drops, waits + 1);
        ghost var asleep := Value();
        for k := 0 to drops[waits]
          invariant Value() == GivenBack(asleep, k) && active == asleep.active - k
          invariant closing && !taken && consumed == 0 && !finalized && waiters <= {thread}
        {
          DropLease();
        }
        waits := waits + 1;
      }
      TotalGrows(drops, waits);
      taken := true;
      waiters := waiters - {thread};
      consumed := consumed + 1;
      payload := true;
    }
  }

  lemma {:induction false} TotalGrows(drops: seq<nat>, k: nat)
    requires k <= |drops|
    ensures Total(drops[..k]) <= Total(drops)
    decreases |drops|
  {
    if k < |drops| {
      TotalGrows(drops[..|drops| - 1], k);
      assert drops[..|drops| - 1][..k] == drops[..k];
    } else {
      assert drops[..k] == drops;
    }
  }

  /** `HandleTable` behind its mutex. `history` holds every record ever made, in order. */
  class HandleTable {
    var files: map<nat, HandleRecord>
    var dirs: map<nat, HandleRecord>
    var nextFh: nat
    ghost var history: seq<HandleRecord>

    /** Every file handle given out is below `nextFh`, and names the record made with it, in the table of its kind. */
    ghost predicate Valid()
      reads this
    {
      && nextFh == |history| + 1
      && (forall i, j | 0 <= i < j < |history| :: history[i] != history[j])
      && (forall fh | fh in files :: 1 <= fh < nextFh)
      && (forall fh | fh in dirs :: 1 <= fh < nextFh)
      && (forall i {:trigger RowOk(i)} | 0 <= i < |history| :: RowOk(i))
    }

    ghost predicate RowOk(i: nat)
      requires i < |history|
      reads this
    {
      && (i + 1 in files ==> files[i + 1] == history[i] && history[i].kind == File)
      && (i + 1 in dirs ==> dirs[i + 1] == history[i] && history[i].kind == Dir)
    }

    ghost predicate Tabled(fh: nat)
      reads this
    {
      fh + 1 in files || fh + 1 in dirs
    }

    /** The records as the steps of the runtime see them. */
    ghost function Records(): (records: seq<Record>)
      reads this, history
      ensures |records| == |history|
      ensures forall i | 0 <= i < |history| ::
                records[i] == Record(history[i].kind, history[i].Ref(), Tabled(i), history[i].Value())
    {
      seq(|history|, (i: int) requires 0 <= i < |history| reads this, history =>
        Record(history[i].kind, history[i].Ref(), Tabled(i), history[i].Value()))
    }

    constructor ()
      ensures Valid() && files == map[] && dirs == map[] && nextFh == 1 && Records() == []
    {
      files, dirs, nextFh := map[], map[], 1;
      history := [];
    }

    /** `add_file` and `add_dir`. */
    method Add(kind: Kind, node: nat, ghost incarnation: nat) returns (fh: nat, record: HandleRecord)
      requires Valid() && nextFh < U64_MAX
      modifies this
      ensures Valid() && fresh(record)
      ensures fh == old(nextFh) && fh !in old(files) && fh !in old(dirs)
      ensures files == if kind == File then old(files)[fh := record] else old(files)
      ensures dirs == if kind == Dir then old(dirs)[fh := record] else old(dirs)
      ensures history == old(history) + [record]
      ensures Records() == Entered(old(Records()), kind, NodeRef(node, incarnation))
    {
      fh := nextFh;
      nextFh := nextFh + 1;
      record := new HandleRecord(kind, node, incarnation);
      history := history + [record];
      if kind == File {
        files := files[fh := record];
      } else {
        dirs := dirs[fh := record];
      }
      assert Valid() by {
        forall i | 0 <= i < |history| ensures RowOk(i) { assert i < |old(history)| ==> old(RowOk(i)); }
      }
      assert Records() == Entered(old(Records()), kind, NodeRef(node, incarnation)) by {
        forall i | 0 <= i < |old(history)| ensures Records()[i] == old(Records())[i] {
          assert history[i] == old(history)[i];
        }
      }
    }

    ghost function Lookup(kind: Kind, fh: nat): Option<HandleRecord>
      reads this
    {
      var records := if kind == File then files else dirs;
      if fh in records then Some(records[fh]) else None
    }

    /** What the map of a kind holds is what the steps of the runtime find. */
    lemma LookupFinds(kind: Kind, ino: nat, fh: nat)
      requires Valid()
      ensures Lookup(kind, fh).Some? ==> 1 <= fh <= |history| && Lookup(kind, fh).value == history[fh - 1]
      ensures Lookup(kind, fh).Some? && Lookup(kind, fh).value.node == ino
              <==> fh >= 1 && Findable(Records(), kind, ino, fh - 1)
    {
      if 1 <= fh <= |history| { assert RowOk(fh - 1); }
    }

    /** `file` and `dir`: a lease, only on a handle opened on `ino` and not yet closing. */
    method Borrowed(kind: Kind, ino: nat, fh: nat) returns (lease: Option<HandleRecord>)
      requires Valid()
      requires Lookup(kind, fh).Some? ==> Lookup(kind, fh).value.active < U32_MAX
      modifies if Lookup(kind, fh).Some? then {Lookup(kind, fh).value} else {}
      ensures Valid() && history == old(history)
      ensures var before := old(Records());
              && (lease.Some? <==> fh >= 1 && Findable(before, kind, ino, fh - 1) && !before[fh - 1].lending.closing)
              && (lease.Some? ==> lease.value == history[fh - 1])
              && Records() == if lease.Some? then Relent(before, fh - 1, Borrow(before[fh - 1].lending)) else before
    {
      LookupFinds(kind, ino, fh);
      var records := if kind == File then files else dirs;
      if fh !in records { return None; }
      var record := records[fh];
      if record.node != ino { return None; }
      var granted := record.Acquire();
      lease := if granted then Some(record) else None;
    }

    /** The first section of `release` and `releasedir`: one caller wins the record. */
    method Remove(kind: Kind, ino: nat, fh: nat) returns (record: Option<HandleRecord>)
      requires Valid()
      modifies this
      ensures Valid() && nextFh == old(nextFh) && history == old(history)
      ensures var before := old(Records());
              && (record.Some? <==> fh >= 1 && Findable(before, kind, ino, fh - 1))
              && (record.Some? ==> record.value == history[fh - 1])
              && Records() == if record.Some? then Withdrawn(before, fh - 1) else before
      ensures record.Some? ==> Lookup(kind, fh) == None
      ensures forall k, g | k != kind || g != fh :: Lookup(k, g) == old(Lookup(k, g))
    {
      hide Records, Findable;
      LookupFinds(kind, ino, fh);
      var records := if kind == File then files else dirs;
      if fh !in records || records[fh].node != ino { return None; }
      record := Some(records[fh]);
      if kind == File {
        files := files - {fh};
      } else {
        dirs := dirs - {fh};
      }
      assert Valid() by {
        forall i | 0 <= i < |history| ensures RowOk(i) { assert old(RowOk(i)); }
      }
      assert Records() == Withdrawn(old(Records()), fh - 1) by {
        forall i | 0 <= i < |history| ensures Records()[i] == Withdrawn(old(Records()), fh - 1)[i] {
          assert old(RowOk(i));
          assert Tabled(i) == (i != fh - 1 && old(Tabled(i)));
        }
      }
    }
  }
}
