/** Instants as Go sees them, and the whole seconds the database keeps (backend/storage/storage.go). */
module Clock {

  /** Nanoseconds since 1970. */
  type Time = int

  const SECOND: int := 1_000_000_000

  /** Go's zero time, the first instant of the year 1. */
  const ZERO_TIME: Time := -62_135_596_800_000_000_000

  function Unix(t: Time): int {
    if t == ZERO_TIME then 0 else t / SECOND
  }

  function FromUnix(n: int): Time {
    if n == 0 then ZERO_TIME else n * SECOND
  }

  lemma UnixBounds(t: Time)
    requires t != ZERO_TIME
    ensures Unix(t) * SECOND <= t < Unix(t) * SECOND + SECOND
  {
  }

  /** What is read back is the beginning of the second, except that the zero time is kept and that the first second of
      1970 is read as it. */
  lemma ReadBack(t: Time)
    ensures FromUnix(Unix(t)) == if t == ZERO_TIME || 0 <= t < SECOND then ZERO_TIME else t - t % SECOND
    ensures Unix(ZERO_TIME) == 0
  {
  }
}
