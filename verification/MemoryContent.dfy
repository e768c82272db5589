/**
 * fuse3/examples/memory_fs.rs: what the nodes hold. A new node is of the kind asked for and holds what was asked for;
 * from then on nothing but a write to it changes what a file, a symbolic link or a special file holds.
 */
module MemoryContent {
  import opened Base
  import opened Nodes
  import opened MemoryFs
  import opened MemoryTree
  import opened MemoryRename
  import opened MemoryRuns
  import T = PosixTree

  /** What a node of that kind holds when it is new: nothing, but for the target of a symbolic link. */
  ghost predicate HoldsNew(node: Node, kind: FileKind, target: seq<Byte>)
  {
    && node.kind == kind
    && (kind == DirectoryKind ==> node.content.Dir? && node.content.entries == map[] && node.nlink == 2)
    && (kind != DirectoryKind ==> node.nlink == 1)
    && (kind == RegularFile ==> node.content.File? && node.content.bytes == [])
    && (kind == SymlinkKind ==> node.content.Symlink? && node.content.target == target)
    && (kind == CharDevice || kind == BlockDevice || kind == NamedPipe || kind == Socket ==> node.content.Special?)
  }

  /**
   * mknod, mkdir, symlink and create put a new node under a free name of a directory: its entry and the node itself are
   * of the kind asked for, and the node holds what was asked for. No other entry and no other node changes. Without
   * such a directory and such a name nothing changes at all.
   */
  lemma MakeAnswers(t: Mem, p: nat, n: Name, kind: FileKind, target: seq<Byte>)
    requires Exact(t) && ROOT in t.slots
    ensures var t' := Step(t, Make(p, n, kind, target));
            if p in t.slots && t.slots[p].payload.content.Dir? && n !in t.slots[p].payload.content.entries then
              && EntryOf(t', p, n).Ok? && EntryOf(t', p, n).value.kind == kind
              && var id := EntryOf(t', p, n).value.id;
                 && id !in t.slots && id in t'.slots && HoldsNew(t'.slots[id].payload, kind, target)
                 && t'.slots[id].parent == p && t'.slots[id].links == 1
                 && (forall x | x in t.slots && x != p :: x in t'.slots && t'.slots[x] == t.slots[x])
                 && (forall x, y | x != id && (x != p || y != n) :: EntryOf(t', x, y) == EntryOf(t, x, y))
            else t' == t
  {
    hide Exact, CreateChild;
    var t' := Step(t, Make(p, n, kind, target));
    if CreateChild(t, p, n, kind, FreshContent(kind, target)).1.Ok? {
      CreatedSlots(t, p, n, kind, FreshContent(kind, target));
    }
    DeclinedCreates(t, p, n, kind, FreshContent(kind, target));
  }

  // ---------- what a call leaves of what nodes hold ----------

  /** The same incarnation, of the same kind; holding the same unless it is a directory or may be written. */
  predicate Holds(s: Slot<Node>, s': Slot<Node>, writable: bool)
  {
    && s'.record == s.record && s'.payload.kind == s.payload.kind
    && s'.payload.content.Dir? == s.payload.content.Dir? && s'.payload.content.File? == s.payload.content.File?
    && (s.payload.content.Dir? || writable || s'.payload.content == s.payload.content)
  }

  /** Every node still there holds what it held, but for writes to `written`; the others are new incarnations. */
  ghost predicate Carries(t: Mem, t': Mem, written: set<nat>)
  {
    && Exact(t') && |t.log| <= |t'.log|
    && forall id | id in t'.slots ::
         || (id in t.slots && Holds(t.slots[id], t'.slots[id], id in written))
         || t'.slots[id].record >= |t.log|
  }

  lemma CarriesTwice(t: Mem, t': Mem, t'': Mem, written: set<nat>, written': set<nat>)
    requires Carries(t, t', written) && Carries(t', t'', written')
    ensures Carries(t, t'', written + written')
  {
    hide Exact;
  }

  lemma StillCarries(t: Mem, t': Mem, t'': Mem)
    requires Carries(t, t', {}) && Carries(t', t'', {})
    ensures Carries(t, t'', {})
  {
    hide Exact;
  }

  lemma NothingCarries(t: Mem)
    requires Exact(t)
    ensures Carries(t, t, {})
  {
    hide Exact;
  }

  lemma EditsCarry(t: Mem, p: nat, n: Name, e: DirEntry, nlink: nat)
    requires Exact(t)
    ensures Carries(t, WithEntry(t, p, n, e), {}) && Carries(t, WithoutEntry(t, p, n), {})
    ensures Carries(t, WithNlink(t, p, nlink), {})
  {
    hide Exact;
    EditsKeepExact(t, p, n, e, nlink);
  }

  lemma LinksCarry(t: Mem, id: nat, parent: nat)
    requires Exact(t)
    ensures Carries(t, AddLink(t, id), {}) && Carries(t, RemoveLink(t, id), {})
    ensures Carries(t, Reparent(t, id, parent), {})
  {
    hide Exact;
    ApplyIsExact(t, OpAddLink(id));
    ApplyIsExact(t, OpRemoveLink(id));
    ApplyIsExact(t, OpReparent(id, parent));
  }

  lemma InsertCarries(t: Mem, node: Node, parent: nat)
    requires Exact(t)
    ensures Carries(t, Insert(t, node, parent).1, {})
  {
    hide Exact;
    InsertIsExact(t, node, parent);
  }

  lemma CountingCarries(t: Mem, op: Op<Node>)
    requires Exact(t) && OnlyCounts(op)
    ensures Carries(t, Apply(t, op), {})
  {
    hide Exact;
    ApplyIsExact(t, op);
  }

  lemma CreateCarries(t: Mem, p: nat, n: Name, kind: FileKind, content: Content)
    requires Exact(t)
    ensures Carries(t, CreateChild(t, p, n, kind, content).0, {})
  {
    hide Exact, Carries, Insert, WithEntry, WithNlink;
    NothingCarries(t);
    if CreateChild(t, p, n, kind, content).1.Ok? {
      var (id, t1) := Insert(t, NewNode(kind, content), p);
      var e := DirEntry(id, kind);
      InsertCarries(t, NewNode(kind, content), p);
      CarriesExact(t, t1);
      EditsCarry(t1, p, n, e, 0);
      var t2 := WithEntry(t1, p, n, e);
      CarriesExact(t1, t2);
      EditsCarry(t2, p, n, e, NlinkOf(t2, p) + 1);
      StillCarries(t, t1, t2);
      if kind == DirectoryKind { StillCarries(t, t2, OneMore(t2, p)); }
    }
  }

  lemma CarriesExact(t: Mem, t': Mem)
    requires Carries(t, t', {})
    ensures Exact(t')
  {}

  lemma UnlinkCarries(t: Mem, p: nat, n: Name)
    requires Exact(t)
    ensures Carries(t, UnlinkEntry(t, p, n).0, {})
  {
    hide Exact, Carries, WithoutEntry, WithNlink, RemoveLink;
    NothingCarries(t);
    if UnlinkEntry(t, p, n).1.Ok? {
      var e := EntryOf(t, p, n).value;
      var t1 := WithoutEntry(t, p, n);
      var t2 := OneLess(t1, e.id);
      EditsCarry(t, p, n, e, 0);
      CarriesExact(t, t1);
      EditsCarry(t1, e.id, n, e, SaturatingSub(NlinkOf(t1, e.id), 1));
      CarriesExact(t1, t2);
      LinksCarry(t2, e.id, p);
      StillCarries(t, t1, t2);
      StillCarries(t, t2, RemoveLink(t2, e.id));
    }
  }

  lemma RmdirCarries(t: Mem, p: nat, n: Name)
    requires Exact(t)
    ensures Carries(t, RmdirEntry(t, p, n).0, {})
  {
    hide Exact, Carries, WithoutEntry, WithNlink, RemoveLink;
    NothingCarries(t);
    if RmdirEntry(t, p, n).1.Ok? {
      var e := EntryOf(t, p, n).value;
      var t1 := WithoutEntry(t, p, n);
      var t2 := OneLess(t1, p);
      var t3 := WithNlink(t2, e.id, 0);
      EditsCarry(t, p, n, e, 0);
      CarriesExact(t, t1);
      EditsCarry(t1, p, n, e, SaturatingSub(NlinkOf(t1, p), 1));
      CarriesExact(t1, t2);
      EditsCarry(t2, e.id, n, e, 0);
      CarriesExact(t2, t3);
      LinksCarry(t3, e.id, p);
      StillCarries(t, t1, t2);
      StillCarries(t, t2, t3);
      StillCarries(t, t3, RemoveLink(t3, e.id));
    }
  }

  lemma LinkCarries(t: Mem, id: nat, p: nat, n: Name)
    requires Exact(t)
    ensures Carries(t, LinkEntry(t, id, p, n).0, {})
  {
    hide Exact, Carries, WithEntry, WithNlink, AddLink;
    NothingCarries(t);
    if LinkEntry(t, id, p, n).1.Ok? {
      var e := DirEntry(id, KindOf(t, id).value);
      var t1 := WithEntry(t, p, n, e);
      var t2 := AddLink(t1, id);
      EditsCarry(t, p, n, e, 0);
      CarriesExact(t, t1);
      LinksCarry(t1, id, p);
      CarriesExact(t1, t2);
      EditsCarry(t2, id, n, e, NlinkOf(t2, id) + 1);
      StillCarries(t, t1, t2);
      StillCarries(t, t2, OneMore(t2, id));
    }
  }

  lemma EnteringCarries(t: Mem, p: nat, q: nat, m: Name, target: DirEntry)
    requires Exact(t)
    ensures Carries(t, Entered(t, p, q, m, target), {})
  {
    hide Exact, Carries, WithEntry, WithNlink, Reparent;
    var ta := WithEntry(t, q, m, target);
    var tb := Reparent(ta, target.id, q);
    var tc := OneLess(tb, p);
    EditsCarry(t, q, m, target, 0);
    CarriesExact(t, ta);
    LinksCarry(ta, target.id, q);
    CarriesExact(ta, tb);
    EditsCarry(tb, p, m, target, SaturatingSub(NlinkOf(tb, p), 1));
    CarriesExact(tb, tc);
    EditsCarry(tc, q, m, target, NlinkOf(tc, q) + 1);
    StillCarries(t, ta, tb);
    StillCarries(t, tb, tc);
    StillCarries(t, tc, OneMore(tc, q));
  }

  lemma DisowningCarries(t: Mem, q: nat, gone: DirEntry)
    requires Exact(t)
    ensures Carries(t, Disowned(t, q, gone), {})
  {
    hide Exact, Carries, WithNlink;
    var name: Name := [];
    var ta := OneLess(t, q);
    EditsCarry(t, q, name, gone, SaturatingSub(NlinkOf(t, q), 1));
    EditsCarry(t, gone.id, name, gone, SaturatingSub(NlinkOf(t, gone.id), 1));
    CarriesExact(t, ta);
    EditsCarry(ta, gone.id, name, gone, 0);
    StillCarries(t, ta, WithNlink(ta, gone.id, 0));
  }

  lemma RenameCarries(t: Mem, p: nat, n: Name, q: nat, m: Name)
    requires Exact(t)
    ensures Carries(t, RenameEntry(t, p, n, q, m).0, {})
  {
    hide Exact, Carries, RenameWrites;
    NothingCarries(t);
    if RenameEntry(t, p, n, q, m).0 != t {
      RenameWritesCarry(t, p, n, q, m, DirEntry(EntryOf(t, p, n).value.id, KindOf(t, EntryOf(t, p, n).value.id).value));
    }
  }

  lemma RenameWritesCarry(t: Mem, p: nat, n: Name, q: nat, m: Name, target: DirEntry)
    requires Exact(t)
    ensures Carries(t, RenameWrites(t, p, n, q, m, target).0, {})
  {
    hide Exact, Carries, WithoutEntry, Entered, Disowned, RemoveLink, EntryOf;
    var t1 := WithoutEntry(t, p, n);
    EditsCarry(t, p, n, target, 0);
    CarriesExact(t, t1);
    var t2 := Entered(t1, p, q, m, target);
    EnteringCarries(t1, p, q, m, target);
    StillCarries(t, t1, t2);
    CarriesExact(t1, t2);
    var gone := EntryOf(t1, q, m);
    if gone.Ok? {
      var t3 := Disowned(t2, q, gone.value);
      DisowningCarries(t2, q, gone.value);
      StillCarries(t, t2, t3);
      CarriesExact(t2, t3);
      LinksCarry(t3, gone.value.id, p);
      StillCarries(t, t3, RemoveLink(t3, gone.value.id));
    }
  }

  // ---------- over runs ----------

  /** The nodes a call writes. */
  function Written(call: Call): set<nat>
  {
    if call.SetBytes? then {call.id} else {}
  }

  lemma WritingCarries(t: Mem, id: nat, bytes: seq<Byte>)
    requires Exact(t)
    ensures Carries(t, Step(t, SetBytes(id, bytes)), {id})
  {
    hide Exact;
    if id in t.slots { WriteKeepsExact(t, id, t.slots[id].payload.(content := File(bytes))); }
  }

  /** Every call, whatever its caller does, leaves what nodes hold alone, but for the node a write is to. */
  lemma StepCarries(t: Mem, call: Call)
    requires Exact(t)
    ensures Carries(t, Step(t, call), Written(call))
  {
    hide Exact, Carries, CreateChild, UnlinkEntry, RmdirEntry, LinkEntry, RenameEntry, Apply, Write;
    match call
    case Make(p, n, kind, target) => CreateCarries(t, p, n, kind, FreshContent(kind, target));
    case Unlink(p, n) => UnlinkCarries(t, p, n);
    case Rmdir(p, n) => RmdirCarries(t, p, n);
    case Link(id, p, n) => LinkCarries(t, id, p, n);
    case Rename(p, n, q, m) => RenameCarries(t, p, n, q, m);
    case SetBytes(id, bytes) => WritingCarries(t, id, bytes);
    case Count(op) => if OnlyCounts(op) { CountingCarries(t, op); } else { NothingCarries(t); }
  }

  function RunFrom(t: Mem, calls: seq<Call>): Mem
  {
    if calls == [] then t else Step(RunFrom(t, calls[..|calls| - 1]), calls[|calls| - 1])
  }

  function AllWritten(calls: seq<Call>): set<nat>
  {
    if calls == [] then {} else AllWritten(calls[..|calls| - 1]) + Written(calls[|calls| - 1])
  }

  lemma {:induction false} RunCarries(t: Mem, calls: seq<Call>)
    requires Exact(t)
    ensures Carries(t, RunFrom(t, calls), AllWritten(calls))
  {
    hide Exact, Carries, Step, Written;
    if calls == [] {
      NothingCarries(t);
    } else {
      var (before, last) := (calls[..|calls| - 1], calls[|calls| - 1]);
      RunCarries(t, before);
      RunIsExact(t, before);
      StepCarries(RunFrom(t, before), last);
      CarriesTwice(t, RunFrom(t, before), RunFrom(t, calls), AllWritten(before), Written(last));
    }
  }

  lemma RunIsExact(t: Mem, calls: seq<Call>)
    requires Carries(t, RunFrom(t, calls), AllWritten(calls))
    ensures Exact(RunFrom(t, calls))
  {}

  /** No call writes the node's bytes. */
  predicate Unwritten(calls: seq<Call>, id: nat)
  {
    forall k | 0 <= k < |calls| :: calls[k].SetBytes? ==> calls[k].id != id
  }

  lemma {:induction false} WrittenMeansSetBytes(calls: seq<Call>, id: nat)
    ensures id !in AllWritten(calls) <==> Unwritten(calls, id)
  {
    if calls != [] {
      var (before, last) := (calls[..|calls| - 1], calls[|calls| - 1]);
      WrittenMeansSetBytes(before, id);
      forall k | 0 <= k < |before| ensures before[k] == calls[k] {}
    }
  }

  /**
   * Along every run, polite or not, in use or not: as long as a node's incarnation is live it is of the same kind, and
   * unless some call writes its bytes a file, link or special file holds what it held.
   */
  lemma ContentLasts(t: Mem, calls: seq<Call>, id: nat)
    requires Exact(t) && id in t.slots
    ensures var t' := RunFrom(t, calls);
            id in t'.slots && t'.slots[id].record == t.slots[id].record ==>
              && t'.slots[id].payload.kind == t.slots[id].payload.kind
              && t'.slots[id].payload.content.Dir? == t.slots[id].payload.content.Dir?
              && (!t.slots[id].payload.content.Dir? && Unwritten(calls, id) ==>
                    t'.slots[id].payload.content == t.slots[id].payload.content)
  {
    hide Exact, RunFrom;
    RunCarries(t, calls);
    WrittenMeansSetBytes(calls, id);
    RecordIsIssued(t, id);
  }

  lemma RecordIsIssued(t: Mem, id: nat)
    requires Exact(t) && id in t.slots
    ensures t.slots[id].record < |t.log|
  {
    assert SlotNumbered(id, t.slots[id], t.log);
  }

  /** A write makes a live file hold exactly the bytes written and changes nothing else; other nodes it leaves alone. */
  lemma WriteAnswers(t: Mem, id: nat, bytes: seq<Byte>)
    ensures var t' := Step(t, SetBytes(id, bytes));
            if id in t.slots && t.slots[id].payload.content.File? then
              && t'.slots.Keys == t.slots.Keys && t' == t.(slots := t'.slots)
              && t'.slots[id].payload.content.File? && t'.slots[id].payload.content.bytes == bytes
              && t'.slots[id] == t.slots[id].(payload := t.slots[id].payload.(content := t'.slots[id].payload.content))
              && (forall x | x in t.slots && x != id :: t'.slots[x] == t.slots[x])
            else t' == t
  {}

  /**
   * What was asked for when a node was made is what it holds for as long as it is live and nobody writes to it: the
   * target of a symbolic link, the no bytes of a file.
   */
  lemma MadeContentLasts(t: Mem, p: nat, n: Name, kind: FileKind, target: seq<Byte>, calls: seq<Call>)
    requires Exact(t) && ROOT in t.slots && kind != DirectoryKind
    requires p in t.slots && t.slots[p].payload.content.Dir? && n !in t.slots[p].payload.content.entries
    ensures var t1 := Step(t, Make(p, n, kind, target));
            var t' := RunFrom(t1, calls);
            && EntryOf(t1, p, n).Ok? && EntryOf(t1, p, n).value.id in t1.slots
            && var id := EntryOf(t1, p, n).value.id;
               && id in t'.slots && t'.slots[id].record == t1.slots[id].record
               && Unwritten(calls, id) ==>
                    && t'.slots[id].payload.kind == kind
                    && (kind == SymlinkKind ==>
                          t'.slots[id].payload.content.Symlink? && t'.slots[id].payload.content.target == target)
                    && (kind == RegularFile ==>
                          t'.slots[id].payload.content.File? && t'.slots[id].payload.content.bytes == [])
  {
    hide Exact, Step, RunFrom;
    MakeAnswers(t, p, n, kind, target);
    var t1 := Step(t, Make(p, n, kind, target));
    StepIsExact(t, Make(p, n, kind, target));
    ContentLasts(t1, calls, EntryOf(t1, p, n).value.id);
  }

  lemma StepIsExact(t: Mem, call: Call)
    requires Exact(t)
    ensures Exact(Step(t, call))
  {
    hide Exact, Step;
    StepCarries(t, call);
  }

  // ---------- every call against the hierarchy of POSIX ----------

  /**
   * In a tree with exact counts, a call whose caller does its part has on the hierarchy exactly the effect of the POSIX
   * operation of its name, and none where POSIX refuses; nodes that nothing names or uses are then gone. Writes and
   * counting have no effect on it.
   */
  lemma StepIsPosix(t: Mem, call: Call)
    requires MemOk(t) && Polite(t, call)
    ensures var (t', tree) := (Step(t, call), TreeOf(t));
            match call
            case Make(p, n, kind, _) =>
              if T.IsDir(tree, p) && T.Child(tree, p, n).None? then
                && EntryOf(t', p, n).Ok?
                && T.Create(tree, p, n, EntryOf(t', p, n).value.id, kind == DirectoryKind) == Ok(TreeOf(t'))
              else t' == t
            case Unlink(p, n) => Follows(t, t', T.Unlink(tree, p, n))
            case Rmdir(p, n) => Follows(t, t', T.Rmdir(tree, p, n))
            case Link(id, p, n) => Follows(t, t', T.Link(tree, id, p, n))
            case Rename(p, n, q, m) => Follows(t, t', T.Rename(tree, p, n, q, m))
            case SetBytes(_, _) => TreeOf(t') == tree
            case Count(op) =>
              TreeOf(t') == Restrict(tree, t'.slots.Keys) && t' == if OnlyCounts(op) then Apply(t, op) else t
  {
    hide MemOwing, Exact, TreeOf, CreateChild, UnlinkEntry, RmdirEntry, LinkEntry, RenameEntry, Apply, T.Rename,
      T.Linked, IntoItself, Restrict;
    MemBasics(t, None);
    TreeChildren(t);
    match call
    case Make(p, n, kind, target) => MakeIsPosix(t, p, n, kind, target);
    case Unlink(p, n) => UnlinkRefines(t, p, n);
    case Rmdir(p, n) => RmdirRefines(t, p, n);
    case Link(id, p, n) =>
      LinkRefines(t, id, p, n);
      WholeTree(Step(t, call));
    case Rename(p, n, q, m) => RenameIsPosix(t, p, n, q, m);
    case SetBytes(id, bytes) => BytesKeep(t, id, bytes);
    case Count(op) =>
      if OnlyCounts(op) { CountingKeeps(t, op); } else { WholeTree(t); }
  }

  lemma MakeIsPosix(t: Mem, p: nat, n: Name, kind: FileKind, target: seq<Byte>)
    requires Exact(t) && ROOT in t.slots && T.Linked(TreeOf(t), p)
    ensures var (t', tree) := (Step(t, Make(p, n, kind, target)), TreeOf(t));
            if T.IsDir(tree, p) && T.Child(tree, p, n).None? then
              && EntryOf(t', p, n).Ok?
              && T.Create(tree, p, n, EntryOf(t', p, n).value.id, kind == DirectoryKind) == Ok(TreeOf(t'))
            else t' == t
  {
    hide Exact, CreateChild, TreeOf, T.Linked;
    var content := FreshContent(kind, target);
    TreeChildren(t);
    CreatedTree(t, p, n, kind, content, 0);
    if CreateChild(t, p, n, kind, content).1.Ok? { CreatedSlots(t, p, n, kind, content); }
  }

  lemma RenameIsPosix(t: Mem, p: nat, n: Name, q: nat, m: Name)
    requires MemOk(t) && Polite(t, Rename(p, n, q, m))
    ensures Follows(t, Step(t, Rename(p, n, q, m)), T.Rename(TreeOf(t), p, n, q, m))
  {
    hide MemOwing, Exact, TreeOf, RenameEntry, T.Rename, T.Linked, IntoItself, Restrict;
    if Moves(t, p, n, q, m) {
      MovesRefines(t, p, n, q, m);
    } else {
      RenameRefines(t, p, n, q, m);
      DeclinedChangesNothing(t, p, n, q, m);
    }
  }

  ghost predicate Follows(t: Mem, t': Mem, posix: Result<T.Tree>)
  {
    match posix
    case Ok(tree) => TreeOf(t') == Restrict(tree, t'.slots.Keys)
    case Err(_) => t' == t
  }

  lemma WholeTree(t: Mem)
    ensures Restrict(TreeOf(t), t.slots.Keys) == TreeOf(t)
  {}
}
