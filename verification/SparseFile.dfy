/**
 * fuse3/examples/memory_fs.rs: the content of a regular file under `write`, `setattr` (size) and `read`.
 *
 * The reference is the history of edits: a byte is what the last edit that touched it left there, and zero if none did.
 */
module SparseFile {
  import opened Base
  import opened MemoryFs

  /** `usize` on a 64-bit target; a sum beyond it is an overflow panic. */
  const USIZE_MAX: nat := 0xFFFF_FFFF_FFFF_FFFF

  datatype Edit = Wrote(offset: nat, data: seq<Byte>) | Resized(size: nat)
  {
    /** A write touches the bytes it writes; a resize touches all bytes from the new end on, which are gone for good. */
    predicate Touches(i: nat)
    {
      match this
      case Wrote(offset, data) => offset <= i < offset + |data|
      case Resized(size) => size <= i
    }

    function Leaves(i: nat): Byte
      requires Touches(i)
    {
      match this
      case Wrote(offset, data) => data[i - offset]
      case Resized(_) => 0
    }
  }

  /** The position after the last edit that touched byte `i`, or zero. */
  function LastTouch(history: seq<Edit>, i: nat): (k: nat)
    ensures k <= |history|
    ensures k > 0 ==> history[k - 1].Touches(i)
    ensures forall j | k <= j < |history| :: !history[j].Touches(i)
  {
    if history == [] then 0
    else if history[|history| - 1].Touches(i) then |history|
    else LastTouch(history[..|history| - 1], i)
  }

  function ByteAt(history: seq<Edit>, i: nat): Byte
  {
    var k := LastTouch(history, i);
    if k == 0 then 0 else history[k - 1].Leaves(i)
  }

  /** The length: a resize sets it, a write raises it to its end. */
  function Length(history: seq<Edit>): nat
  {
    if history == [] then 0
    else
      var before := Length(history[..|history| - 1]);
      match history[|history| - 1]
      case Wrote(offset, data) => if offset + |data| > before then offset + |data| else before
      case Resized(size) => size
  }

  /** A vector of bytes is what the history says; beyond its end, the history says zero. */
  ghost predicate Agrees(bytes: seq<Byte>, history: seq<Edit>)
  {
    && |bytes| == Length(history)
    && (forall i | 0 <= i < |bytes| :: bytes[i] == ByteAt(history, i))
    && (forall i: nat | i >= |bytes| :: ByteAt(history, i) == 0)
  }

  /** `Vec::resize(size, 0)`. */
  function Padded(bytes: seq<Byte>, size: nat): (r: seq<Byte>)
    ensures |r| == size
    ensures forall i | 0 <= i < size :: r[i] == if i < |bytes| then bytes[i] else 0
  {
    if size <= |bytes| then bytes[..size] else bytes + seq(size - |bytes|, _ => 0)
  }

  lemma EditChangesByte(history: seq<Edit>, edit: Edit, i: nat)
    ensures ByteAt(history + [edit], i) == if edit.Touches(i) then edit.Leaves(i) else ByteAt(history, i)
    ensures Length(history + [edit]) ==
              match edit
              case Wrote(offset, data) => if offset + |data| > Length(history) then offset + |data| else Length(history)
              case Resized(size) => size
  {
    assert (history + [edit])[..|history|] == history;
  }

  /** What an edit makes of a vector. */
  function Applied(bytes: seq<Byte>, edit: Edit): seq<Byte>
  {
    match edit
    case Wrote(offset, data) =>
      var end := offset + |data|;
      var roomy := if end > |bytes| then Padded(bytes, end) else bytes;
      roomy[..offset] + data + roomy[end..]
    case Resized(size) => Padded(bytes, size)
  }

  lemma AppliedAgrees(bytes: seq<Byte>, history: seq<Edit>, edit: Edit)
    requires Agrees(bytes, history)
    ensures Agrees(Applied(bytes, edit), history + [edit])
  {
    hide ByteAt, Length;
    var bytes', history' := Applied(bytes, edit), history + [edit];
    forall i: nat
      ensures i < |bytes'| ==> bytes'[i] == ByteAt(history', i)
      ensures i >= |bytes'| ==> ByteAt(history', i) == 0
    {
      EditChangesByte(history, edit, i);
    }
    EditChangesByte(history, edit, 0);
  }

  /** A file node, open for reading and writing. */
  class FileNode {
    var content: Content
    ghost var history: seq<Edit>

    ghost predicate Valid()
      reads this
    {
      content.File? ==> Agrees(content.bytes, history)
    }

    /** A new regular file is empty. */
    constructor ()
      ensures Valid() && content == File([]) && history == []
    {
      content, history := File([]), [];
    }

    method Write(data: seq<Byte>, offset: nat) returns (r: Result<nat>)
      requires Valid() && offset + |data| <= USIZE_MAX
      modifies this
      ensures Valid() && content.File? == old(content).File?
      ensures if old(content).File? then r == Ok(|data|) && history == old(history) + [Wrote(offset, data)]
              else r == Err(EISDIR) && content == old(content)
    {
      if !content.File? { return Err(EISDIR); }
      var bytes := content.bytes;
      var end := offset + |data|;
      if end > |bytes| {
        bytes := Padded(bytes, end);
      }
      bytes := bytes[..offset] + data + bytes[end..];
      content := File(bytes);
      history := history + [Wrote(offset, data)];
      hide Agrees, Padded;
      assert content.bytes == Applied(old(content).bytes, Wrote(offset, data));
      AppliedAgrees(old(content).bytes, old(history), Wrote(offset, data));
      r := Ok(|data|);
    }

    /** The size part of `setattr`: no error on a node without bytes, and no effect. */
    method SetSize(size: nat)
      requires Valid() && size <= USIZE_MAX
      modifies this
      ensures Valid() && content.File? == old(content).File?
      ensures if old(content).File? then history == old(history) + [Resized(size)] else content == old(content)
    {
      if content.File? {
        var bytes := Padded(content.bytes, size);
        content := File(bytes);
        history := history + [Resized(size)];
        hide Agrees;
        AppliedAgrees(old(content).bytes, old(history), Resized(size));
      }
    }

    /** What is read is what was last written, zeros where nothing was, and nothing beyond the end. */
    method Read(offset: nat, size: nat) returns (r: Result<seq<Byte>>)
      requires Valid() && (content.File? && offset < |content.bytes| ==> offset + size <= USIZE_MAX)
      ensures r.Ok? == content.File? && (r.Err? ==> r.error == EISDIR)
      ensures r.Ok? ==>
                && |r.value| == (if offset >= Length(history) then 0
                                 else if offset + size <= Length(history) then size else Length(history) - offset)
                && forall k | 0 <= k < |r.value| :: r.value[k] == ByteAt(history, offset + k)
    {
      if !content.File? { return Err(EISDIR); }
      var bytes := content.bytes;
      if offset >= |bytes| { return Ok([]); }
      var end := if offset + size < |bytes| then offset + size else |bytes|;
      r := Ok(bytes[offset..end]);
    }
  }

  /** A vector edited as the operations edit it, from empty. */
  function Edited(history: seq<Edit>): seq<Byte>
  {
    if history == [] then [] else Applied(Edited(history[..|history| - 1]), history[|history| - 1])
  }

  /** For every history of edits, the vector holds what the history says. */
  lemma {:induction false} EditsAgree(history: seq<Edit>)
    ensures Agrees(Edited(history), history)
  {
    if history != [] {
      hide Agrees, Applied;
      EditsAgree(history[..|history| - 1]);
      AppliedAgrees(Edited(history[..|history| - 1]), history[..|history| - 1], history[|history| - 1]);
      assert history[..|history| - 1] + [history[|history| - 1]] == history;
    }
  }

  /**
   * What was cut off does not come back: after a file has shrunk to `size` and grown again, the bytes between are
   * zero.
   */
  lemma RegrownBytesAreZero(history: seq<Edit>, size: nat, more: nat, i: nat)
    requires size <= i < more
    ensures var bytes := Edited(history + [Resized(size), Resized(more)]); i < |bytes| && bytes[i] == 0
  {
    var h1, h2 := history + [Resized(size)], history + [Resized(size), Resized(more)];
    assert h2 == h1 + [Resized(more)];
    EditsAgree(h2);
    EditChangesByte(history, Resized(size), i);
    EditChangesByte(h1, Resized(more), i);
  }

  /**
   * Writing nothing beyond the end extends the file, where POSIX write() has no effect; otherwise the lengths agree.
   */
  lemma EmptyWritesExtend(history: seq<Edit>, offset: nat, data: seq<Byte>)
    ensures var posix := if data == [] || offset + |data| <= Length(history) then Length(history) else offset + |data|;
            |Edited(history + [Wrote(offset, data)])| == posix <==> data != [] || offset <= Length(history)
  {
    EditsAgree(history + [Wrote(offset, data)]);
    EditChangesByte(history, Wrote(offset, data), 0);
  }
}
