/** NUL-terminated name lists: written by fuse3/examples/memory_fs.rs, split by fuse3/src/passthrough.rs. */
module XattrNames {
  import opened Base

  datatype Reply = Size(size: nat) | Data(bytes: seq<Byte>)

  /** `listxattr` of the memory filesystem, on the attribute names in map order; a size of zero asks for the length. */
  method ListNames(names: seq<Name>, size: nat) returns (r: Reply)
    ensures r == if size == 0 then Size(|Joined(names)|) else Data(Joined(names))
  {
    var buf := [];
    for i := 0 to |names|
      invariant buf == Joined(names[..i])
    {
      assert names[..i + 1][..i] == names[..i];
      buf := buf + names[i];
      buf := buf + [0];
    }
    assert names[..|names|] == names;
    r := if size == 0 then Size(|buf|) else Data(buf);
  }

  ghost function Joined(names: seq<Name>): seq<Byte>
  {
    if names == [] then [] else Joined(names[..|names| - 1]) + names[|names| - 1] + [0]
  }

  /** The pieces of `buf` between NULs, as `slice::split` yields them: one more than there are NULs. */
  function Split(buf: seq<Byte>): (pieces: seq<Name>)
    ensures |pieces| > 0
  {
    if buf == [] then [[]]
    else if buf[0] == 0 then [[]] + Split(buf[1..])
    else
      var rest := Split(buf[1..]);
      [[buf[0]] + rest[0]] + rest[1..]
  }

  function NonEmpty(pieces: seq<Name>): seq<Name>
  {
    if pieces == [] then []
    else if pieces[0] == [] then NonEmpty(pieces[1..])
    else [pieces[0]] + NonEmpty(pieces[1..])
  }

  /** The splitting of `listxattr_names_nofollow`. */
  function SplitNames(buf: seq<Byte>): seq<Name>
  {
    NonEmpty(Split(buf))
  }

  predicate Writable(name: Name)
  {
    name != [] && 0 !in name
  }

  lemma {:induction false} SplitJoins(a: seq<Byte>, b: seq<Byte>)
    ensures Split(a + [0] + b) == Split(a) + Split(b)
  {
    var buf := a + [0] + b;
    if a == [] {
      assert buf[1..] == b;
    } else {
      assert buf[1..] == a[1..] + [0] + b;
      SplitJoins(a[1..], b);
    }
  }

  lemma {:induction false} NulFreeIsOnePiece(buf: seq<Byte>)
    requires 0 !in buf
    ensures Split(buf) == [buf]
  {
    if buf != [] {
      NulFreeIsOnePiece(buf[1..]);
      assert buf == [buf[0]] + buf[1..];
    }
  }

  lemma {:induction false} JoinedFromFront(names: seq<Name>)
    requires names != []
    ensures Joined(names) == names[0] + [0] + Joined(names[1..])
  {
    var last := |names| - 1;
    if last > 0 {
      JoinedFromFront(names[..last]);
      assert names[..last][1..] == names[1..][..last - 1];
    }
  }

  lemma {:induction false} SplitUndoesJoin(names: seq<Name>)
    requires forall n | n in names :: Writable(n)
    ensures SplitNames(Joined(names)) == names
  {
    if names != [] {
      assert names[0] in names;
      JoinedFromFront(names);
      SplitJoins(names[0], Joined(names[1..]));
      NulFreeIsOnePiece(names[0]);
      SplitUndoesJoin(names[1..]);
      assert ([names[0]] + Split(Joined(names[1..])))[1..] == Split(Joined(names[1..]));
    }
  }

  lemma {:induction false} SplitIsNulFree(buf: seq<Byte>)
    ensures forall n | n in Split(buf) :: 0 !in n
  {
    if buf != [] {
      SplitIsNulFree(buf[1..]);
    }
  }

  lemma {:induction false} NonEmptyKeeps(pieces: seq<Name>)
    ensures forall n | n in NonEmpty(pieces) :: n != [] && n in pieces
  {
    if pieces != [] {
      NonEmptyKeeps(pieces[1..]);
    }
  }

  /** A list survives being written and split if and only if every name is non-empty and NUL-free. */
  lemma RoundTrip(names: seq<Name>)
    ensures SplitNames(Joined(names)) == names <==> forall n | n in names :: Writable(n)
  {
    if forall n | n in names :: Writable(n) {
      SplitUndoesJoin(names);
    }
    SplitIsNulFree(Joined(names));
    NonEmptyKeeps(Split(Joined(names)));
  }

  lemma FirstOrNot(pieces: seq<Name>)
    requires pieces != []
    ensures NonEmpty(pieces) == (if pieces[0] == [] then [] else [pieces[0]]) + NonEmpty(pieces[1..])
  {}

  lemma {:induction false} NonEmptyJoins(a: seq<Name>, b: seq<Name>)
    ensures NonEmpty(a + b) == NonEmpty(a) + NonEmpty(b)
  {
    if a == [] {
      assert a + b == b;
    } else {
      NonEmptyJoins(a[1..], b);
      assert (a + b)[0] == a[0] && (a + b)[1..] == a[1..] + b;
      FirstOrNot(a);
      FirstOrNot(a + b);
    }
  }

  /**
   * Whatever the buffer holds, its names are the runs between NULs, in order, without the empty ones; the last run
   * counts with or without a NUL after it.
   */
  lemma NamesAreTheRuns(front: seq<Byte>, last: Name)
    requires (front == [] || front[|front| - 1] == 0) && 0 !in last
    ensures SplitNames([]) == []
    ensures SplitNames(front + last) == SplitNames(front) + if last == [] then [] else [last]
    ensures SplitNames(front + last + [0]) == SplitNames(front + last)
  {
    NulFreeIsOnePiece(last);
    SplitJoins(front + last, []);
    assert front + last + [0] == front + last + [0] + [];
    NonEmptyJoins(Split(front + last), [[]]);
    if front == [] {
      assert front + last == last;
    } else {
      var a := front[..|front| - 1];
      assert front == a + [0] == a + [0] + [];
      SplitJoins(a, last);
      SplitJoins(a, []);
      NonEmptyJoins(Split(a), [last]);
      NonEmptyJoins(Split(a), [[]]);
    }
  }
}
