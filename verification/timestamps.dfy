/** The two numbers the cache keeps of a modification time, computed as
    Ruby computes them from a Time held as exact nanoseconds:
    `mtime.round` and `(mtime.subsec * 1000).round`. */
module Timestamps {

  const NANOS_PER_SECOND: int := 1_000_000_000
  const NANOS_PER_MILLI: int := 1_000_000

  /** `Time#round` to whole seconds, as seconds since the epoch: the
      fractional part is taken modulo one second (so it is never negative)
      and a half rounds up. */
  function RoundToSecond(ns: int): (s: int)
    ensures s * NANOS_PER_SECOND - NANOS_PER_SECOND / 2 <= ns < s * NANOS_PER_SECOND + NANOS_PER_SECOND / 2
  {
    (ns + NANOS_PER_SECOND / 2) / NANOS_PER_SECOND
  }

  /** `Time#subsec`, in nanoseconds: the part of the time past its whole
      second, in [0, 1 s). */
  function Subsec(ns: int): (f: int)
    ensures 0 <= f < NANOS_PER_SECOND
    ensures (ns - f) % NANOS_PER_SECOND == 0
  {
    ns % NANOS_PER_SECOND
  }

  /** `(subsec * 1000).round`: the sub-second part in milliseconds,
      rounded half up. It reaches 1000 when the part is 999.5 ms or more. */
  function SubsecMillis(ns: int): (m: int)
    ensures 0 <= m <= 1000
    ensures m * NANOS_PER_MILLI - NANOS_PER_MILLI / 2 <= Subsec(ns) < m * NANOS_PER_MILLI + NANOS_PER_MILLI / 2
  {
    (Subsec(ns) + NANOS_PER_MILLI / 2) / NANOS_PER_MILLI
  }

  /** The nearest whole second is unique: two times round to the same
      second exactly when they fall in the same half-open interval. */
  lemma RoundToSecondUnique(ns: int, s: int)
    requires s * NANOS_PER_SECOND - NANOS_PER_SECOND / 2 <= ns < s * NANOS_PER_SECOND + NANOS_PER_SECOND / 2
    ensures RoundToSecond(ns) == s
  {
    var r := RoundToSecond(ns);
    assert r * NANOS_PER_SECOND - NANOS_PER_SECOND / 2 <= ns < r * NANOS_PER_SECOND + NANOS_PER_SECOND / 2;
  }

  /** The nearest millisecond of the sub-second part is unique. */
  lemma SubsecMillisUnique(ns: int, m: int)
    requires m * NANOS_PER_MILLI - NANOS_PER_MILLI / 2 <= Subsec(ns) < m * NANOS_PER_MILLI + NANOS_PER_MILLI / 2
    ensures SubsecMillis(ns) == m
  {
    var r := SubsecMillis(ns);
    assert r * NANOS_PER_MILLI - NANOS_PER_MILLI / 2 <= Subsec(ns) < r * NANOS_PER_MILLI + NANOS_PER_MILLI / 2;
  }

  /** A time rounds to `s` exactly when it lies within half a second of
      `s`, the half below included. */
  lemma NearestSecond(ns: int, s: int)
    ensures RoundToSecond(ns) == s <==>
      s * NANOS_PER_SECOND - NANOS_PER_SECOND / 2 <= ns < s * NANOS_PER_SECOND + NANOS_PER_SECOND / 2
  {
    if s * NANOS_PER_SECOND - NANOS_PER_SECOND / 2 <= ns < s * NANOS_PER_SECOND + NANOS_PER_SECOND / 2 {
      RoundToSecondUnique(ns, s);
    }
  }

  /** The sub-second part rounds to `m` milliseconds exactly when it lies
      within half a millisecond of `m`, the half below included. */
  lemma NearestMilli(ns: int, m: int)
    ensures SubsecMillis(ns) == m <==>
      m * NANOS_PER_MILLI - NANOS_PER_MILLI / 2 <= Subsec(ns) < m * NANOS_PER_MILLI + NANOS_PER_MILLI / 2
  {
    if m * NANOS_PER_MILLI - NANOS_PER_MILLI / 2 <= Subsec(ns) < m * NANOS_PER_MILLI + NANOS_PER_MILLI / 2 {
      SubsecMillisUnique(ns, m);
    }
  }

  /** A time 999.5 ms or more past its second gives 1000 milliseconds,
      while its rounded second is the next one. */
  lemma MillisReachThousand()
    ensures SubsecMillis(1_999_600_000) == 1000 && RoundToSecond(1_999_600_000) == 2
    ensures SubsecMillis(1_499_999_999) == 500 && RoundToSecond(1_499_999_999) == 1
  {
  }
}
