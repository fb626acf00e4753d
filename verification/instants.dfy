/**
 The part of Go's `time.Time` that the codec observes: a Unix second and a
 nanosecond within that second. Time zones, the monotonic clock and calendar
 fields do not influence `Unix()` or `Nanosecond()`, so they are not modelled.
 */
module Instants {

  const NanosPerSecond: nat := 1_000_000_000

  datatype Instant = Instant(unix: int, nsec: int) {
    /** The invariant every `time.Time` keeps: 0 <= Nanosecond() < 10^9. */
    predicate Normalized() {
      0 <= nsec < NanosPerSecond
    }
  }

  /** A value of Go's `time.Time`. */
  type GoTime = t: Instant | t.Normalized() witness Instant(0, 0)

  /** Nanoseconds since 1970-01-01T00:00:00Z: the instant as one number. */
  function TotalNanos(t: Instant): int
  {
    t.unix * NanosPerSecond + t.nsec
  }

  /** Go's integer division `/` on int64, which truncates toward zero. */
  function Quot(a: int, b: int): int
    requires b > 0
  {
    if a >= 0 then a / b else -((-a) / b)
  }

  /**
   `time.Unix(sec, nsec)`: a nanosecond count outside [0, 10^9) is carried
   into the seconds, with the same branches as the standard library.
   */
  function Unix(sec: int, nsec: int): (t: GoTime)
    ensures TotalNanos(t) == sec * NanosPerSecond + nsec
    ensures 0 <= nsec < NanosPerSecond ==> t == Instant(sec, nsec)
  {
    if nsec < 0 || nsec >= NanosPerSecond then
      var n := Quot(nsec, NanosPerSecond);
      var sec1 := sec + n;
      var nsec1 := nsec - n * NanosPerSecond;
      if nsec1 < 0 then Instant(sec1 - 1, nsec1 + NanosPerSecond)
      else Instant(sec1, nsec1)
    else
      Instant(sec, nsec)
  }
}
