/** The end-of-cycle sleep of the main loop (orpheus.py, line 193): sleep
    until the next multiple of the interval after the cycle's start, or not at
    all when the cycle overran that boundary. Times are whole epoch seconds,
    read before (`t0`) and after (`t1`) the cycle. */
module Schedule {

  /** The cycle interval of the main loop, in seconds. */
  const INTERVAL_SECONDS: nat := 300

  /** `max(0, interval - (t1 - t0) - t0 % interval)`. Python's `%` with a
      positive divisor is never negative, like Dafny's. The sleep is never
      negative, and is zero exactly when the cycle ran up to or past the next
      boundary. */
  function SleepSeconds(t0: int, t1: int, interval: nat): (s: nat)
    requires interval > 0
    ensures s == 0 <==> t1 - t0 >= interval - t0 % interval
  {
    var raw := interval - (t1 - t0) - t0 % interval;
    if raw > 0 then raw else 0
  }

  /** A cycle that ends before the next boundary wakes exactly on it: the
      first multiple of the interval strictly after `t0`. */
  lemma {:induction false} SleepReachesNextBoundary(t0: int, t1: int, interval: nat)
    requires interval > 0
    requires t1 - t0 <= interval - t0 % interval
    ensures var wake := t1 + SleepSeconds(t0, t1, interval);
      && wake % interval == 0
      && t0 < wake <= t0 + interval
      && wake == (t0 / interval + 1) * interval
  {
    var wake := t1 + SleepSeconds(t0, t1, interval);
    assert t0 == (t0 / interval) * interval + t0 % interval;
    assert wake == (t0 / interval) * interval + interval;
    assert wake == (t0 / interval + 1) * interval;
    assert (t0 / interval + 1) * interval % interval == 0 by {
      ModOfMultiple(t0 / interval + 1, interval);
    }
  }

  /** With the main loop's five-minute interval, a cycle that ends before
      the next five-minute mark sleeps until exactly that mark. */
  lemma WakesOnFiveMinuteMark(t0: int, t1: int)
    requires t1 - t0 <= INTERVAL_SECONDS - t0 % INTERVAL_SECONDS
    ensures var wake := t1 + SleepSeconds(t0, t1, INTERVAL_SECONDS);
      wake % 300 == 0 && t0 < wake <= t0 + 300
  {
    SleepReachesNextBoundary(t0, t1, INTERVAL_SECONDS);
  }

  lemma {:induction false} ModOfMultiple(q: int, d: nat)
    requires d > 0
    ensures (q * d) % d == 0
  {
    var r := (q * d) % d;
    var p := (q * d) / d;
    var a := q - p;
    assert q * d == p * d + r;
    assert a * d == q * d - p * d;
    assert a * d == r;
  }
}
