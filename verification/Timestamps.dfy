/** fuse3/src/conv.rs and fuse3/src/passthrough.rs: floor-based POSIX timestamps on both sides of the epoch. */
module Timestamps {
  import opened Base

  const NANOS: int := 1_000_000_000
  const I64_LIMIT: int := 0x8000_0000_0000_0000

  type Seconds = s: int | -I64_LIMIT <= s < I64_LIMIT
  type Nanos = n: int | 0 <= n < NANOS

  /** A `SystemTime`, in nanoseconds from the epoch; its seconds are a signed 64-bit number. */
  type Time = t: int | -I64_LIMIT * NANOS <= t < I64_LIMIT * NANOS

  /** `system_time_to_secs_nsecs`. `None` is the overflow of `-secs` when the duration's seconds wrap to `i64::MIN`. */
  function Encode(t: Time): Option<(Seconds, Nanos)>
  {
    if t >= 0 then Some((t / NANOS, t % NANOS))
    else
      var d: int := t;
      var secs, nsecs := (-d) / NANOS, (-d) % NANOS;
      if secs == I64_LIMIT then None
      else if nsecs == 0 then Some((-secs, 0))
      else Some((-secs - 1, NANOS - nsecs))
  }

  /** `secs_nsecs_to_system_time`. `None` is the overflow of negating `i64::MIN`. */
  function Decode(secs: Seconds, nanos: Nanos): Option<Time>
  {
    if secs >= 0 then Some(secs * NANOS + nanos)
    else if secs == -I64_LIMIT then None
    else
      var wholeSeconds: Time := 0 - (-secs) * NANOS;
      Some(wholeSeconds + nanos)
  }

  /** `system_time_from_secs` of the passthrough helpers: one subtraction, falling back to the epoch. */
  function PassthroughDecode(secs: Seconds, nanos: Nanos): int
  {
    if secs >= 0 then secs * NANOS + nanos
    else
      var s: int := secs;
      var duration := if nanos == 0 then (-s) * NANOS else (-s - 1) * NANOS + (NANOS - nanos);
      if -duration < -I64_LIMIT * NANOS then 0 else -duration
  }

  /** Encoding yields the floor form of the time, and fails on the single earliest instant only. */
  lemma EncodeIsFloor(t: Time)
    ensures Encode(t).Some? <==> t != -I64_LIMIT * NANOS
    ensures Encode(t).Some? ==> Encode(t).value.0 * NANOS + Encode(t).value.1 == t
  {}

  /** Decoding then encoding returns the pair, on every pair but those of second `i64::MIN`. */
  lemma DecodeThenEncode(secs: Seconds, nanos: Nanos)
    ensures Decode(secs, nanos).Some? <==> secs != -I64_LIMIT
    ensures Decode(secs, nanos).Some? ==> Encode(Decode(secs, nanos).value) == Some((secs, nanos))
  {}

  /** Encoding then decoding returns the time, on every time from second `i64::MIN + 1` on. */
  lemma EncodeThenDecode(t: Time)
    ensures Encode(t).Some? && Decode(Encode(t).value.0, Encode(t).value.1) == Some(t)
            <==> t >= (-I64_LIMIT + 1) * NANOS
  {}

  /**
   * The two decoders agree wherever the first is defined; the second is the floor reading everywhere and never falls
   * back.
   */
  lemma DecodersAgree(secs: Seconds, nanos: Nanos)
    ensures PassthroughDecode(secs, nanos) == secs * NANOS + nanos
    ensures Decode(secs, nanos) == Some(PassthroughDecode(secs, nanos)) <==> secs != -I64_LIMIT
  {}
}
