/** fuse3/src/file_lock.rs: byte-range locks to and from `struct flock`. */
module FileLock {
  import opened Base

  const U64_MAX := 0xFFFF_FFFF_FFFF_FFFF
  const I64_MAX := 0x7FFF_FFFF_FFFF_FFFF
  const I32_MAX := 0x7FFF_FFFF

  type U64 = x: int | 0 <= x <= U64_MAX
  type U32 = x: int | 0 <= x <= 0xFFFF_FFFF
  type I64 = x: int | -I64_MAX - 1 <= x <= I64_MAX
  type I32 = x: int | -I32_MAX - 1 <= x <= I32_MAX
  type I16 = x: int | -0x8000 <= x <= 0x7FFF

  // Linux values of the `F_*LCK` and `SEEK_SET` constants.
  const F_RDLCK: I16 := 0
  const F_WRLCK: I16 := 1
  const F_UNLCK: I16 := 2
  const SEEK_SET: I16 := 0

  datatype LockKind = Read | Write | Unlock

  /** An inclusive byte range; `end == U64_MAX` means "to end of file". */
  datatype Lock = Lock(start: U64, end: U64, kind: LockKind, pid: U32)

  datatype Flock = Flock(lockType: I16, whence: I16, start: I64, len: I64, pid: I32)

  function TryI64(x: U64): Result<I64>
  {
    if x <= I64_MAX then Ok(x) else Err(EOVERFLOW)
  }

  function ToFlock(lock: Lock): Result<Flock>
  {
    if lock.end < lock.start then Err(EINVAL)
    else
      var lockType := match lock.kind case Read => F_RDLCK case Write => F_WRLCK case Unlock => F_UNLCK;
      var start := TryI64(lock.start);
      if start.Err? then Err(start.error)
      else
        var len: Result<I64> :=
          if lock.end == U64_MAX then Ok(0)
          else if lock.end - lock.start > U64_MAX - 1 then Err(EOVERFLOW)
          else TryI64(lock.end - lock.start + 1);
        if len.Err? then Err(len.error)
        else if lock.pid > I32_MAX then Err(EOVERFLOW)
        else Ok(Flock(lockType, SEEK_SET, start.value, len.value, lock.pid))
  }

  function FromFlock(raw: Flock): Result<Lock>
  {
    if raw.whence != SEEK_SET || raw.start < 0 || raw.len < 0 then Err(EINVAL)
    else if raw.lockType != F_RDLCK && raw.lockType != F_WRLCK && raw.lockType != F_UNLCK then Err(EINVAL)
    else
      var kind := if raw.lockType == F_RDLCK then Read else if raw.lockType == F_WRLCK then Write else Unlock;
      if raw.len != 0 && raw.start + (raw.len - 1) > U64_MAX then Err(EINVAL)
      else
        var end := if raw.len == 0 then U64_MAX else raw.start + (raw.len - 1);
        Ok(Lock(raw.start, end, kind, if raw.pid < 0 then 0 else raw.pid))
  }

  /** The bytes a raw range covers, by the rule of fcntl(): `l_len == 0` runs to the largest offset. */
  ghost predicate RawCovers(raw: Flock, byte: U64)
  {
    raw.start <= byte && (raw.len != 0 ==> byte < raw.start + raw.len)
  }

  /** The lock type a kind of lock goes by. */
  predicate Names(lockType: I16, kind: LockKind)
  {
    || (kind == Read && lockType == F_RDLCK)
    || (kind == Write && lockType == F_WRLCK)
    || (kind == Unlock && lockType == F_UNLCK)
  }

  /**
   * Encoding succeeds exactly when the range is upright and every field fits; inversion is `EINVAL`, a misfit
   * `EOVERFLOW`.
   */
  lemma EncodesExactlyWhatFits(lock: Lock)
    ensures ToFlock(lock).Ok? <==>
            && lock.start <= lock.end
            && lock.start <= I64_MAX
            && (lock.end == U64_MAX || lock.end - lock.start < I64_MAX)
            && lock.pid <= I32_MAX
    ensures ToFlock(lock).Err? ==> ToFlock(lock).error == if lock.end < lock.start then EINVAL else EOVERFLOW
  {}

  /**
   * An encoded lock covers the same bytes from the start of the file, for the same process and of the same kind, and
   * decodes to itself, so "to end of file" and finite ranges never collide.
   */
  lemma EncodeThenDecode(lock: Lock)
    requires ToFlock(lock).Ok?
    ensures FromFlock(ToFlock(lock).value) == Ok(lock)
    ensures forall byte: U64 :: RawCovers(ToFlock(lock).value, byte) <==> lock.start <= byte <= lock.end
    ensures var raw := ToFlock(lock).value;
            raw.whence == SEEK_SET && raw.pid == lock.pid && Names(raw.lockType, lock.kind)
            && (raw.len == 0 <==> lock.end == U64_MAX)
  {}

  /** A raw lock is accepted exactly when it is an absolute, non-negative range of a known type, else it is `EINVAL`. */
  lemma DecodesExactlyTheValid(raw: Flock)
    ensures FromFlock(raw).Ok? <==>
            raw.whence == SEEK_SET && raw.start >= 0 && raw.len >= 0 && raw.lockType in {F_RDLCK, F_WRLCK, F_UNLCK}
    ensures FromFlock(raw).Err? ==> FromFlock(raw).error == EINVAL
    ensures FromFlock(raw).Ok? ==> (FromFlock(raw).value.end == U64_MAX <==> raw.len == 0)
  {}

  /** What a decoded lock is: the bytes and the kind of the raw one, and its process, or 0 where that is negative. */
  lemma DecodedFields(raw: Flock)
    requires FromFlock(raw).Ok?
    ensures var lock := FromFlock(raw).value;
            && lock.pid == (if raw.pid >= 0 then raw.pid else 0)
            && Names(raw.lockType, lock.kind)
            && forall byte: U64 :: lock.start <= byte <= lock.end <==> RawCovers(raw, byte)
  {}

  /**
   * Decoding loses nothing but a negative pid: the reverse trip returns the raw lock if and only if its pid is not
   * negative.
   */
  lemma DecodeThenEncode(raw: Flock)
    requires FromFlock(raw).Ok?
    ensures ToFlock(FromFlock(raw).value).Ok?
    ensures ToFlock(FromFlock(raw).value) == Ok(raw) <==> raw.pid >= 0
    ensures ToFlock(FromFlock(raw).value) == Ok(raw.(pid := if raw.pid >= 0 then raw.pid else 0))
  {}
}
