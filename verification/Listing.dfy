/**
 * fuse3/examples/memory_fs.rs `readdir`, and fuse3/src/ffi.rs `DirBuffer`: a listing read in pages.
 *
 * A page ends where the reply buffer is full. The next one resumes at the cookie of the last entry in the buffer.
 */
module Listing {
  import opened Base
  import opened MemoryFs

  datatype Listed = Listed(name: Name, id: nat, kind: FileKind, next: nat)

  /** `CString::new` refuses a name with a NUL inside; the buffer then skips the entry and asks for more. */
  predicate Shown(e: Listed)
  {
    0 !in e.name
  }

  function Visible(list: seq<Listed>): seq<Listed>
  {
    if list == [] then []
    else Visible(list[..|list| - 1]) + if Shown(list[|list| - 1]) then [list[|list| - 1]] else []
  }

  /** How many entries in a row a buffer takes that has `room` bytes left. */
  function Taken(size: Name -> nat, list: seq<Listed>, room: nat): (k: nat)
    ensures k <= |list|
  {
    if list == [] then 0
    else if !Shown(list[0]) then 1 + Taken(size, list[1..], room)
    else if size(list[0].name) > room then 0
    else 1 + Taken(size, list[1..], room - size(list[0].name))
  }

  function Start(list: seq<Listed>, offset: nat): (from: nat)
    ensures from <= |list|
  {
    if offset < |list| then offset else |list|
  }

  /** The page a buffer of `capacity` bytes gets from a listing resumed at `offset`. */
  function Page(size: Name -> nat, list: seq<Listed>, offset: nat, capacity: nat): seq<Listed>
  {
    var from := Start(list, offset);
    Visible(list[from..from + Taken(size, list[from..], capacity)])
  }

  /** Each entry's cookie is the position after it. */
  ghost predicate Numbered(list: seq<Listed>)
  {
    forall k | 0 <= k < |list| :: list[k].next == k + 1
  }

  // ---------- the directory's own listing ----------

  function Entries(entries: map<Name, DirEntry>, order: seq<Name>): (list: seq<Listed>)
    requires forall n | n in order :: n in entries
    ensures |list| == |order|
    ensures forall k | 0 <= k < |order| ::
              list[k] == Listed(order[k], entries[order[k]].id, entries[order[k]].kind, k + 3)
  {
    if order == [] then []
    else
      var last := order[|order| - 1];
      Entries(entries, order[..|order| - 1]) + [Listed(last, entries[last].id, entries[last].kind, |order| + 2)]
  }

  /** `.` and `..`, then the entries as the map iterates them. */
  function Whole(entries: map<Name, DirEntry>, order: seq<Name>, self: nat, parent: nat): (list: seq<Listed>)
    requires forall n | n in order :: n in entries
    ensures Numbered(list) && |list| == |order| + 2
    ensures list[0] == Listed(DOT, self, DirectoryKind, 1) && list[1] == Listed(DOTDOT, parent, DirectoryKind, 2)
    ensures forall k | 0 <= k < |order| ::
              list[k + 2] == Listed(order[k], entries[order[k]].id, entries[order[k]].kind, k + 3)
  {
    [Listed(DOT, self, DirectoryKind, 1), Listed(DOTDOT, parent, DirectoryKind, 2)] + Entries(entries, order)
  }

  // ---------- the buffer and the loop ----------

  /** The reply buffer; `entries` is what its bytes encode, `used` their number. */
  class DirBuffer {
    const capacity: nat
    const size: Name -> nat
    var used: nat
    var entries: seq<Listed>

    constructor (capacity: nat, size: Name -> nat)
      ensures this.capacity == capacity && this.size == size && used == 0 && entries == []
    {
      this.capacity, this.size, used, entries := capacity, size, 0, [];
    }

    method Add(e: Listed) returns (more: bool)
      requires used <= capacity
      modifies this
      ensures used <= capacity
      ensures more == (!Shown(e) || size(e.name) <= capacity - old(used))
      ensures entries == old(entries) + if more then Visible([e]) else []
      ensures used == old(used) + if more && Shown(e) then size(e.name) else 0
    {
      assert [e][..0] == [];
      if 0 in e.name { return true; }
      if used + size(e.name) > capacity { return false; }
      entries := entries + [e];
      used := used + size(e.name);
      more := true;
    }
  }

  lemma {:induction false} VisibleJoins(a: seq<Listed>, b: seq<Listed>)
    ensures Visible(a + b) == Visible(a) + Visible(b)
  {
    if b == [] {
      assert a + b == a;
    } else {
      var front := b[..|b| - 1];
      VisibleJoins(a, front);
      assert (a + b)[..|a + b| - 1] == a + front;
    }
  }

  lemma NothingTaken(size: Name -> nat)
    ensures Visible([]) == [] && forall room: nat :: Taken(size, [], room) == 0
  {}

  lemma VisibleOne(e: Listed)
    ensures Visible([e]) == if Shown(e) then [e] else []
  {
    assert [e][..0] == [];
  }

  /** One more entry offered to the buffer. */
  lemma OneMoreTaken(size: Name -> nat, list: seq<Listed>, from: nat, at: nat, room: nat)
    requires from <= at < |list|
    ensures Visible(list[from..at + 1]) == Visible(list[from..at]) + Visible([list[at]])
    ensures Taken(size, list[at..], room) ==
              if !Shown(list[at]) then 1 + Taken(size, list[at + 1..], room)
              else if size(list[at].name) > room then 0
              else 1 + Taken(size, list[at + 1..], room - size(list[at].name))
  {
    assert list[from..at + 1] == list[from..at] + [list[at]];
    VisibleJoins(list[from..at], [list[at]]);
    assert list[at..][1..] == list[at + 1..];
  }

  /** The buffer holds what is shown of the entries from `from` to `at`, and has taken them all. */
  ghost predicate Reached(
    size: Name -> nat, capacity: nat, list: seq<Listed>, from: nat, at: nat, used: nat, entries: seq<Listed>)
  {
    && from <= at <= |list| && used <= capacity
    && entries == Visible(list[from..at])
    && Taken(size, list[from..], capacity) == at - from + Taken(size, list[at..], capacity - used)
  }

  lemma Offered(
    size: Name -> nat, capacity: nat, list: seq<Listed>, from: nat, at: nat, used: nat, entries: seq<Listed>)
    requires Reached(size, capacity, list, from, at, used, entries) && at < |list|
    ensures var e := list[at];
            if !Shown(e) || size(e.name) <= capacity - used then
              Reached(size, capacity, list, from, at + 1,
                      used + (if Shown(e) then size(e.name) else 0), entries + Visible([e]))
            else entries == Visible(list[from..from + Taken(size, list[from..], capacity)])
  {
    hide Visible, Taken;
    OneMoreTaken(size, list, from, at, capacity - used);
  }

  lemma ReachedStart(size: Name -> nat, capacity: nat, list: seq<Listed>, from: nat)
    requires from <= |list|
    ensures Reached(size, capacity, list, from, from, 0, [])
  {
    assert list[from..from] == [];
  }

  lemma ReachedEnd(
    size: Name -> nat, capacity: nat, list: seq<Listed>, from: nat, used: nat, entries: seq<Listed>)
    requires Reached(size, capacity, list, from, |list|, used, entries)
    ensures entries == Visible(list[from..from + Taken(size, list[from..], capacity)])
  {
    assert list[|list|..] == [];
  }

  /** Offers the entry at `at` to the buffer, which has been offered those from `from` on. */
  method Offer(sink: DirBuffer, e: Listed, ghost list: seq<Listed>, ghost from: nat, ghost at: nat) returns (more: bool)
    requires at < |list| && list[at] == e && Reached(sink.size, sink.capacity, list, from, at, sink.used, sink.entries)
    modifies sink
    ensures more ==> Reached(sink.size, sink.capacity, list, from, at + 1, sink.used, sink.entries)
    ensures !more ==> sink.entries == Visible(list[from..from + Taken(sink.size, list[from..], sink.capacity)])
  {
    hide Visible, Taken;
    Offered(sink.size, sink.capacity, list, from, at, sink.used, sink.entries);
    more := sink.Add(e);
  }

  /** `readdir`, on a directory whose map iterates in `order`. */
  method ReadDir(entries: map<Name, DirEntry>, order: seq<Name>, self: nat, parent: nat, offset: nat, sink: DirBuffer)
    requires forall n | n in order :: n in entries
    requires sink.used == 0 && sink.entries == []
    modifies sink
    ensures sink.entries == Page(sink.size, Whole(entries, order, self, parent), offset, sink.capacity)
  {
    hide Visible, Taken, Whole, Entries, Reached;
    ghost var list := Whole(entries, order, self, parent);
    ghost var from := Start(list, offset);
    ReachedStart(sink.size, sink.capacity, list, from);
    var cursor := offset;
    if cursor < 1 {
      var more := Offer(sink, Listed(DOT, self, DirectoryKind, 1), list, from, 0);
      if !more { return; }
      cursor := 1;
    }
    if cursor < 2 {
      var more := Offer(sink, Listed(DOTDOT, parent, DirectoryKind, 2), list, from, 1);
      if !more { return; }
      cursor := 2;
    }
    var i := if cursor - 2 < |order| then cursor - 2 else |order|;
    while i < |order|
      invariant 0 <= i <= |order|
      invariant Reached(sink.size, sink.capacity, list, from, i + 2, sink.used, sink.entries)
    {
      var name := order[i];
      var more := Offer(sink, Listed(name, entries[name].id, entries[name].kind, i + 3), list, from, i + 2);
      if !more { return; }
      i := i + 1;
    }
    ReachedEnd(sink.size, sink.capacity, list, from, sink.used, sink.entries);
  }

  // ---------- pages put together ----------

  function Resume(offset: nat, page: seq<Listed>): nat
  {
    if page == [] then offset else page[|page| - 1].next
  }

  /** The pages that buffers of these capacities get one after the other, put together. */
  function Pages(size: Name -> nat, list: seq<Listed>, offset: nat, capacities: seq<nat>): seq<Listed>
    decreases |capacities|
  {
    if capacities == [] then []
    else
      var page := Page(size, list, offset, capacities[0]);
      page + Pages(size, list, Resume(offset, page), capacities[1..])
  }

  function ResumeAfter(size: Name -> nat, list: seq<Listed>, offset: nat, capacities: seq<nat>): nat
    decreases |capacities|
  {
    if capacities == [] then offset
    else ResumeAfter(size, list, Resume(offset, Page(size, list, offset, capacities[0])), capacities[1..])
  }

  function Rest(list: seq<Listed>, offset: nat): seq<Listed>
  {
    Visible(list[Start(list, offset)..])
  }

  /** The last entry shown carries the position to resume at: what is left out after it is not shown. */
  lemma {:induction false} LastShown(list: seq<Listed>, from: nat, upto: nat)
    requires Numbered(list) && from <= upto <= |list| && Visible(list[from..upto]) != []
    ensures var shown := Visible(list[from..upto]);
            var next := shown[|shown| - 1].next;
            from < next <= upto && Visible(list[from..next]) == shown
    decreases upto
  {
    assert list[from..upto] != [];
    assert list[from..upto][..upto - from - 1] == list[from..upto - 1];
    if !Shown(list[upto - 1]) {
      LastShown(list, from, upto - 1);
    }
  }

  lemma PageThenRest(size: Name -> nat, list: seq<Listed>, offset: nat, capacity: nat)
    requires Numbered(list)
    ensures var page := Page(size, list, offset, capacity);
            && Rest(list, offset) == page + Rest(list, Resume(offset, page))
            && (page != [] ==> offset < Resume(offset, page) <= |list|)
  {
    hide Visible, Taken;
    var from := Start(list, offset);
    var upto := from + Taken(size, list[from..], capacity);
    var page := Page(size, list, offset, capacity);
    NothingTaken(size);
    if page != [] {
      LastShown(list, from, upto);
      var next := Resume(offset, page);
      assert list[from..] == list[from..next] + list[next..];
      VisibleJoins(list[from..next], list[next..]);
    }
  }

  /** However small the buffers, nothing is lost or repeated: the pages and what is left make up the listing. */
  lemma {:induction false} NothingLostOrRepeated(
    size: Name -> nat, list: seq<Listed>, offset: nat, capacities: seq<nat>)
    requires Numbered(list)
    ensures Pages(size, list, offset, capacities) + Rest(list, ResumeAfter(size, list, offset, capacities)) ==
            Rest(list, offset)
    decreases |capacities|
  {
    if capacities != [] {
      var page := Page(size, list, offset, capacities[0]);
      PageThenRest(size, list, offset, capacities[0]);
      NothingLostOrRepeated(size, list, Resume(offset, page), capacities[1..]);
    }
  }

  lemma VisibleSplits(list: seq<Listed>)
    requires list != []
    ensures Visible(list) == (if Shown(list[0]) then [list[0]] else []) + Visible(list[1..])
  {
    hide Visible;
    assert list == [list[0]] + list[1..];
    VisibleJoins([list[0]], list[1..]);
    VisibleOne(list[0]);
  }

  /** A page is empty exactly when nothing is left to show, or the next entry to show does not fit. */
  lemma {:induction false} EmptyPages(size: Name -> nat, list: seq<Listed>, room: nat)
    ensures Visible(list[..Taken(size, list, room)]) == [] <==>
            Visible(list) == [] || size(Visible(list)[0].name) > room
    decreases |list|
  {
    hide Visible, Taken;
    NothingTaken(size);
    if list == [] {
      assert list[..Taken(size, list, room)] == [];
    } else {
      var k := Taken(size, list, room);
      VisibleSplits(list);
      assert list[0..] == list;
      OneMoreTaken(size, list, 0, 0, room);
      if k == 0 {
        assert list[..k] == [];
      } else {
        assert list[..k][1..] == list[1..][..k - 1];
        VisibleSplits(list[..k]);
        if !Shown(list[0]) { EmptyPages(size, list[1..], room); }
      }
    }
  }

  lemma PageIsEmpty(size: Name -> nat, list: seq<Listed>, offset: nat, capacity: nat)
    ensures var rest := Rest(list, offset);
            Page(size, list, offset, capacity) == [] <==> rest == [] || size(rest[0].name) > capacity
  {
    hide Visible, Taken;
    var from := Start(list, offset);
    EmptyPages(size, list[from..], capacity);
    assert list[from..][..Taken(size, list[from..], capacity)] ==
           list[from..from + Taken(size, list[from..], capacity)];
  }

  /** Each buffer has room for the entry it must begin with. */
  ghost predicate Roomy(size: Name -> nat, list: seq<Listed>, offset: nat, capacities: seq<nat>)
    decreases |capacities|
  {
    capacities == [] ||
    (&& (Rest(list, offset) == [] || size(Rest(list, offset)[0].name) <= capacities[0])
     && Roomy(size, list, Resume(offset, Page(size, list, offset, capacities[0])), capacities[1..]))
  }

  /** With room for one entry in each buffer, at least one more entry is listed by each, until all are. */
  lemma {:induction false} ListingProgresses(size: Name -> nat, list: seq<Listed>, offset: nat, capacities: seq<nat>)
    requires Numbered(list) && Roomy(size, list, offset, capacities)
    ensures var left := Rest(list, ResumeAfter(size, list, offset, capacities));
            left == [] || |left| + |capacities| <= |Rest(list, offset)|
    decreases |capacities|
  {
    if capacities != [] {
      var page := Page(size, list, offset, capacities[0]);
      PageThenRest(size, list, offset, capacities[0]);
      PageIsEmpty(size, list, offset, capacities[0]);
      ListingProgresses(size, list, Resume(offset, page), capacities[1..]);
    }
  }

  /**
   * Read in pages, a directory that does not change yields `.`, `..` and each of its entries once, in order; and then
   * nothing, whatever the buffer. It takes no more pages than entries.
   */
  lemma ListingIsComplete(
    size: Name -> nat, entries: map<Name, DirEntry>, self: nat, parent: nat, capacities: seq<nat>, more: nat)
    requires forall n | n in entries :: 0 !in n
    requires var list := Whole(entries, SortedNames(entries.Keys), self, parent);
             Roomy(size, list, 0, capacities) && |capacities| >= |entries| + 2
    ensures var order := SortedNames(entries.Keys);
            var list := Whole(entries, order, self, parent);
            var pages := Pages(size, list, 0, capacities);
            && |pages| == |entries| + 2
            && pages[0] == Listed(DOT, self, DirectoryKind, 1) && pages[1] == Listed(DOTDOT, parent, DirectoryKind, 2)
            && (forall k | 0 <= k < |entries| ::
                  pages[k + 2] == Listed(order[k], entries[order[k]].id, entries[order[k]].kind, k + 3))
            && Page(size, list, ResumeAfter(size, list, 0, capacities), more) == []
  {
    hide Visible, Taken, Whole, Pages, ResumeAfter, Roomy, SortedNames;
    NothingTaken(size);
    var order := SortedNames(entries.Keys);
    assert |order| == |entries.Keys| == |entries|;
    var list := Whole(entries, order, self, parent);
    forall k | 0 <= k < |list| ensures Shown(list[k]) {
      if k >= 2 { assert list[k].name == order[k - 2] && order[k - 2] in order; }
    }
    AllShown(list);
    assert list[0..] == list;
    NothingLostOrRepeated(size, list, 0, capacities);
    ListingProgresses(size, list, 0, capacities);
    PageIsEmpty(size, list, ResumeAfter(size, list, 0, capacities), more);
  }

  lemma {:induction false} AllShown(list: seq<Listed>)
    requires forall k | 0 <= k < |list| :: Shown(list[k])
    ensures Visible(list) == list
  {
    if list != [] {
      hide Visible, Shown;
      VisibleSplits(list);
      AllShown(list[1..]);
      assert list == [list[0]] + list[1..];
    }
  }

  /** The kernel's side: one buffer after the other, each resumed where the last one ended. */
  method ReadAll(
    entries: map<Name, DirEntry>, order: seq<Name>, self: nat, parent: nat, size: Name -> nat, capacities: seq<nat>)
    returns (pages: seq<Listed>)
    requires forall n | n in order :: n in entries
    ensures pages == Pages(size, Whole(entries, order, self, parent), 0, capacities)
  {
    hide Page, Whole;
    ghost var list := Whole(entries, order, self, parent);
    pages := [];
    var offset := 0;
    assert capacities[0..] == capacities;
    for i := 0 to |capacities|
      invariant pages + Pages(size, list, offset, capacities[i..]) == Pages(size, list, 0, capacities)
    {
      var buffer := new DirBuffer(capacities[i], size);
      ReadDir(entries, order, self, parent, offset, buffer);
      assert capacities[i..][1..] == capacities[i + 1..];
      pages := pages + buffer.entries;
      if buffer.entries != [] {
        offset := buffer.entries[|buffer.entries| - 1].next;
      }
    }
  }
}
