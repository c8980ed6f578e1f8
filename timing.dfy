/**
 * Frame timing arithmetic of the engine's loop: the target interval
 * `1000 / FPS` and the repayment loop that turns a timing overrun into
 * skip credits.
 */
module FrameTiming {

  datatype Option<T> = None | Some(value: T)

  /** Go's integer `/`, which truncates toward zero (Dafny's is Euclidean). */
  function GoDiv(a: int, b: int): (q: int)
    requires b != 0
    ensures a >= 0 && b > 0 ==> q == a / b
  {
    var n := if a < 0 then -a else a;
    var d := if b < 0 then -b else b;
    if (a >= 0) == (b > 0) then n / d else -(n / d)
  }

  /** The frame rates for which the loop's target interval is positive. */
  predicate FpsSupported(fps: int)
  {
    1 <= fps <= 1000
  }

  /**
   * The target interval in milliseconds, `1000 / FPS`, as the source
   * computes it; `None` stands for the run-time panic of a division by zero.
   */
  function Interval(fps: int): (r: Option<int>)
    ensures r.None? <==> fps == 0
    ensures fps > 0 ==> r == Some(1000 / fps)
  {
    if fps == 0 then None else Some(GoDiv(1000, fps))
  }

  /** The interval is strictly positive exactly for 1 <= FPS <= 1000. */
  lemma IntervalPositiveIff(fps: int)
    ensures (Interval(fps).Some? && Interval(fps).value > 0) <==> FpsSupported(fps)
  {
  }

  /** On supported frame rates the interval lies between 1 and 1000 ms. */
  lemma IntervalInRange(fps: int)
    requires FpsSupported(fps)
    ensures Interval(fps) == Some(1000 / fps)
    ensures 1 <= 1000 / fps <= 1000
  {
  }

  /** Ceiling division of a non-negative amount by a positive interval. */
  function CeilDiv(a: nat, b: int): nat
    requires b > 0
  {
    (a + b - 1) / b
  }

  /** State of the repayment loop: the pending delay and the skip credits. */
  datatype Repayment = Repayment(delay: int, skips: nat)

  /**
   * The repayment loop `for delay < 0 { skips++; delay += interval }`:
   * it ends, with a non-negative delay that differs from the starting one
   * by a whole number of intervals, one per added skip credit.
   */
  function CatchUp(delay: int, skips: nat, interval: int): (r: Repayment)
    requires interval > 0
    ensures r.delay >= 0 && r.skips >= skips
    ensures r.delay == delay + (r.skips - skips) * interval
    ensures delay >= 0 ==> r == Repayment(delay, skips)
    ensures delay < 0 ==> r.delay < interval
    decreases if delay < 0 then -delay else 0
  {
    if delay < 0 then CatchUp(delay + interval, skips + 1, interval)
    else Repayment(delay, skips)
  }

  /** The delay left by the repayment loop is congruent to the starting one. */
  lemma CatchUpCongruent(delay: int, skips: nat, interval: int)
    requires interval > 0
    ensures CatchUp(delay, skips, interval).delay % interval == delay % interval
  {
    var r := CatchUp(delay, skips, interval);
    var k := r.skips - skips;
    ShiftByMultiple(delay, k, interval);
  }

  /** Adding `k` whole intervals leaves the remainder unchanged. */
  lemma ShiftByMultiple(a: int, k: nat, b: int)
    requires b > 0
    ensures (a + k * b) % b == a % b
  {
    var q, r := a / b, a % b;
    assert a + k * b == (q + k) * b + r;
    DivUnique(a + k * b, b, q + k, r);
  }

  /** Euclidean division is determined by quotient and remainder. */
  lemma DivUnique(a: int, b: int, q: int, r: int)
    requires b > 0 && 0 <= r < b && a == q * b + r
    ensures a / b == q && a % b == r
  {
    var q', r' := a / b, a % b;
    assert (q - q') * b == r' - r;
    if q > q' {
      MulGrows(q - q', b);
    } else if q < q' {
      MulGrows(q' - q, b);
    }
  }

  /** A positive multiple of `b` is at least `b`. */
  lemma MulGrows(x: int, b: int)
    requires x >= 1 && b > 0
    ensures x * b >= b
  {
  }

  /**
   * A negative starting delay adds exactly `ceil(-delay / interval)` skip
   * credits and leaves a delay in `[0, interval)`.
   */
  lemma CatchUpSkipCount(delay: int, skips: nat, interval: int)
    requires interval > 0 && delay < 0
    ensures CatchUp(delay, skips, interval).skips == skips + CeilDiv(-delay, interval)
    ensures 0 <= CatchUp(delay, skips, interval).delay < interval
  {
    var r := CatchUp(delay, skips, interval);
    var k := r.skips - skips;
    // -delay + interval - 1 == k * interval + (interval - 1 - r.delay)
    DivUnique(-delay + interval - 1, interval, k, interval - 1 - r.delay);
  }

  /** An elapsed time of 2.5 intervals adds exactly two skip credits. */
  lemma CatchUpTwoAndAHalfIntervals(half: int, skips: nat)
    requires half > 0
    ensures CatchUp(2 * half - 5 * half, skips, 2 * half) == Repayment(half, skips + 2)
  {
  }

  /**
   * The repayment loop as written: `skips++; delay += interval` in a loop
   * whose exit is `delay >= 0`. Its result is `CatchUp`.
   */
  method RepayOverrun(delay0: int, skips0: nat, interval: int) returns (delay: int, skips: nat)
    requires interval > 0
    ensures Repayment(delay, skips) == CatchUp(delay0, skips0, interval)
  {
    delay, skips := delay0, skips0;
    while delay < 0
      invariant CatchUp(delay, skips, interval) == CatchUp(delay0, skips0, interval)
      decreases -delay
    {
      skips := skips + 1;
      delay := delay + interval;
    }
  }

  /** The repayment loop's state after `n` passes through its body. */
  function RepayN(delay: int, skips: nat, interval: int, n: nat): (r: Repayment)
    ensures r.skips == skips + n
    decreases n
  {
    if n == 0 then Repayment(delay, skips)
    else RepayN(delay + interval, skips + 1, interval, n - 1)
  }

  /**
   * `CatchUp` is the state of the loop at its first exit: after as many
   * passes as credits it added, with the guard `delay < 0` true before each.
   */
  lemma {:induction false} CatchUpIsFirstExit(delay: int, skips: nat, interval: int)
    requires interval > 0
    ensures var r := CatchUp(delay, skips, interval);
      RepayN(delay, skips, interval, r.skips - skips) == r &&
      forall j: nat :: j < r.skips - skips ==> RepayN(delay, skips, interval, j).delay < 0
    decreases if delay < 0 then -delay else 0
  {
    if delay < 0 {
      CatchUpIsFirstExit(delay + interval, skips + 1, interval);
      var r := CatchUp(delay, skips, interval);
      forall j: nat | j < r.skips - skips
        ensures RepayN(delay, skips, interval, j).delay < 0
      {
        if j > 0 {
          assert RepayN(delay, skips, interval, j) == RepayN(delay + interval, skips + 1, interval, j - 1);
        }
      }
    }
  }

  /**
   * With a non-positive interval a negative delay never becomes
   * non-negative: the repayment loop does not end.
   */
  lemma {:induction false} RepayNeverExits(delay: int, skips: nat, interval: int, n: nat)
    requires delay < 0 && interval <= 0
    ensures RepayN(delay, skips, interval, n).delay < 0
    decreases n
  {
    if n > 0 {
      RepayNeverExits(delay + interval, skips + 1, interval, n - 1);
    }
  }

  /**
   * Outside 1..1000 (and FPS != 0) the interval is not positive, so the
   * first rendered frame that takes longer than the interval spins forever
   * in the repayment loop.
   */
  lemma OutOfRangeFpsSpins(fps: int, elapsed: int, skips: nat, n: nat)
    requires fps != 0 && !FpsSupported(fps)
    requires elapsed > Interval(fps).value
    ensures Interval(fps).value <= 0
    ensures RepayN(Interval(fps).value - elapsed, skips, Interval(fps).value, n).delay < 0
  {
    IntervalPositiveIff(fps);
    RepayNeverExits(Interval(fps).value - elapsed, skips, Interval(fps).value, n);
  }

  /** FPS = 2000 gives a zero interval; a 1 ms frame then never repays. */
  lemma ZeroIntervalNeverRepays(n: nat)
    ensures Interval(2000) == Some(0)
    ensures RepayN(Interval(2000).value - 1, 0, Interval(2000).value, n).delay < 0
  {
    assert 1000 / 2000 == 0;
    RepayNeverExits(-1, 0, 0, n);
  }

  /**
   * The frame rate validated before the loop starts: only rates with a
   * positive interval are accepted.
   */
  function ValidatedInterval(fps: int): (r: Option<int>)
    ensures r.Some? <==> FpsSupported(fps)
    ensures r.Some? ==> 1 <= r.value <= 1000 && Interval(fps) == r
  {
    if FpsSupported(fps) then IntervalInRange(fps); Some(1000 / fps) else None
  }
}
