/** The parts of Go's `time` package the tokens use. An instant is a whole number of
    nanoseconds since the Unix epoch; `time.Time` values compare exactly, so instants
    are unbounded integers here, while `UnixNano` readings are int64. */
module GoTime {
  import opened GoNumeric

  const MillisPerSecond := 1000
  const NanosPerMilli := 1_000_000
  const NanosPerSecond := 1_000_000_000

  /** `time.Unix(sec, nsec)`: the instant `sec` seconds and `nsec` nanoseconds after the
      epoch. Go normalises `nsec` into [0, 1e9) by carrying whole seconds into `sec`; the
      normalised pair is the instant's whole seconds and its nanoseconds within the second. */
  function Unix(sec: int, nsec: int): (instant: int)
    ensures instant / NanosPerSecond == sec + nsec / NanosPerSecond
    ensures instant % NanosPerSecond == nsec % NanosPerSecond
  {
    sec * NanosPerSecond + nsec
  }

  /** Splits a millisecond timestamp as `ExpirationTime` does: `msec := ts % 1e3`,
      `sec := (ts - msec) / 1e3`, both with Go's truncating operators. */
  function SplitMillis(ts: int): (r: (int, int))
    ensures r.0 * MillisPerSecond + r.1 == ts
    ensures -MillisPerSecond < r.1 < MillisPerSecond
    ensures ts >= 0 ==> 0 <= r.1 && 0 <= r.0
    ensures ts < 0 ==> r.1 <= 0 && r.0 <= 0
  {
    var msec := Rem(ts, MillisPerSecond);
    var sec := Quo(ts - msec, MillisPerSecond);
    (sec, msec)
  }

  /** `ExpirationTime()` of a token: `time.Unix(sec, msec*1e6)` of the split timestamp,
      which is the timestamp read as milliseconds, exactly. */
  function FromMillis(ts: int): (instant: int)
    ensures instant == ts * NanosPerMilli
  {
    var (sec, msec) := SplitMillis(ts);
    Unix(sec, msec * NanosPerMilli)
  }

  /** `exp.UnixNano() / 1e6`: the instant in milliseconds, rounded toward zero, so it
      never lies beyond the instant and stays less than a millisecond away from it. */
  function ToMillis(unixNano: int64): (ts: int64)
    ensures unixNano >= 0 ==> ts * NanosPerMilli <= unixNano < ts * NanosPerMilli + NanosPerMilli
    ensures unixNano < 0 ==> ts * NanosPerMilli - NanosPerMilli < unixNano <= ts * NanosPerMilli
  {
    Quo(unixNano, NanosPerMilli)
  }
}
