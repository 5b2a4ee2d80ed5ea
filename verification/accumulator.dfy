/**
 * The fixed-timestep accumulator loop of the demos' main loops.  Each frame
 * adds the measured frame time to an accumulator, then runs physics steps of
 * a fixed length while the accumulator exceeds the step (`>` in most demos,
 * `>=` in the ball demo), subtracting one step each time.
 *
 * The frame time is the clock difference in ticks times 10e-9, that is
 * 1e-8 per tick: with a nanosecond clock this is ten times the elapsed
 * seconds, so the simulation runs ten times faster than the wall clock.
 */
module Accumulator {
  import opened CMath

  /** The demos' `count() * 10e-9` for a clock difference of `ticks`. */
  function FrameDt(ticks: nat): (dt: real)
    ensures dt >= 0.0
  {
    ticks as real * 10e-9
  }

  /**
   * The frame time is additive over consecutive clock intervals and grows
   * with the tick count; 10^8 ticks (a tenth of a second on a nanosecond
   * clock) give one time unit.
   */
  lemma FrameDtLaws(a: nat, b: nat)
    ensures FrameDt(a + b) == FrameDt(a) + FrameDt(b)
    ensures a <= b ==> FrameDt(a) <= FrameDt(b)
    ensures FrameDt(100_000_000) == 1.0
    ensures FrameDt(a) == 0.0 <==> a == 0
  {
  }

  /**
   * The reference count of steps the loop runs on `acc`: none once the
   * loop test fails, otherwise one more than on acc - step.
   */
  function StepCount(acc: real, step: real, strict: bool): nat
    requires step > 0.0
    decreases if acc < 0.0 then 0 else (acc / step).Floor + 1
  {
    if (if strict then acc > step else acc >= step) then
      StepDown(acc, step);
      1 + StepCount(acc - step, step, strict)
    else 0
  }

  lemma StepDown(acc: real, step: real)
    requires step > 0.0 && acc >= step
    ensures ((acc - step) / step).Floor == (acc / step).Floor - 1
    ensures (acc / step).Floor >= 1
  {
    var q := acc / step;
    assert q * step == acc;
    DivUnique(acc - step, step, q - 1.0);
  }

  lemma DivUnique(a: real, t: real, q: real)
    requires t != 0.0 && q * t == a
    ensures a / t == q
  {
    var d := a / t;
    assert (d - q) * t == 0.0;
    ProductZero(d - q, t);
  }

  /**
   * The loop `while (acc > step) { physics(step); acc -= step; }` (or with
   * `>=` when `strict` is false).  It runs `steps` physics steps, leaves
   * acc0 - steps * step behind, and that rest is at most one step (`>`) or
   * below one step (`>=`); a non-negative accumulator stays non-negative.
   */
  method Drain(acc0: real, step: real, strict: bool) returns (acc: real, steps: nat)
    requires step > 0.0
    ensures steps == StepCount(acc0, step, strict)
    ensures acc == acc0 - steps as real * step
    ensures strict ==> acc <= step
    ensures !strict ==> acc < step
    ensures acc0 >= 0.0 ==> acc >= 0.0
  {
    acc, steps := acc0, 0;
    while if strict then acc > step else acc >= step
      invariant acc == acc0 - steps as real * step
      invariant steps + StepCount(acc, step, strict) == StepCount(acc0, step, strict)
      invariant acc0 >= 0.0 ==> acc >= 0.0
      decreases StepCount(acc, step, strict)
    {
      acc := acc - step;
      steps := steps + 1;
    }
  }

  /** One frame: add the frame time for `ticks`, then drain the accumulator. */
  method Frame(acc0: real, ticks: nat, step: real, strict: bool) returns (acc: real, steps: nat)
    requires step > 0.0
    ensures steps == StepCount(acc0 + FrameDt(ticks), step, strict)
    ensures acc == acc0 + FrameDt(ticks) - steps as real * step
    ensures acc0 >= 0.0 ==> 0.0 <= acc && (if strict then acc <= step else acc < step)
  {
    acc, steps := Drain(acc0 + FrameDt(ticks), step, strict);
  }

  /**
   * The step count in closed form for the `>=` loop: from a non-negative
   * accumulator it runs the largest n with n * step <= acc.
   */
  lemma {:induction false} AtLeastCount(acc: real, step: real)
    requires step > 0.0 && acc >= 0.0
    ensures StepCount(acc, step, false) as real * step <= acc < StepCount(acc, step, false) as real * step + step
    decreases if acc < 0.0 then 0 else (acc / step).Floor + 1
  {
    if acc < step {
      assert StepCount(acc, step, false) == 0;
    } else {
      StepDown(acc, step);
      AtLeastCount(acc - step, step);
      var m := StepCount(acc - step, step, false) as real;
      assert StepCount(acc, step, false) as real == m + 1.0;
      assert (m + 1.0) * step == m * step + step;
    }
  }

  /** The `>` loop runs no step exactly when acc <= step. */
  lemma AboveNone(acc: real, step: real)
    requires step > 0.0
    ensures StepCount(acc, step, true) == 0 <==> acc <= step
  {
    if acc > step {
      StepDown(acc, step);
    }
  }

  /**
   * The same for the `>` loop: no step when acc <= step, otherwise the
   * largest n with n * step < acc.
   */
  lemma {:induction false} AboveCount(acc: real, step: real)
    requires step > 0.0 && acc >= 0.0
    ensures StepCount(acc, step, true) == 0 <==> acc <= step
    ensures StepCount(acc, step, true) > 0 ==>
              StepCount(acc, step, true) as real * step < acc <= StepCount(acc, step, true) as real * step + step
    decreases if acc < 0.0 then 0 else (acc / step).Floor + 1
  {
    AboveNone(acc, step);
    if acc > step {
      StepDown(acc, step);
      AboveCount(acc - step, step);
      var m := StepCount(acc - step, step, true);
      assert StepCount(acc, step, true) == m + 1;
      Distribute(m as real, step);
    }
  }

  lemma Distribute(m: real, step: real)
    ensures (m + 1.0) * step == m * step + step
  {
  }

  /** The physics step `f` run n times from x, as the drain loop runs it. */
  function Iterate<T>(f: T -> T, x: T, n: nat): T
    decreases n
  {
    if n == 0 then x else f(Iterate(f, x, n - 1))
  }

  lemma IterateNext<T>(f: T -> T, x: T, n: nat)
    ensures Iterate(f, x, n + 1) == f(Iterate(f, x, n))
  {
  }

  /** Running a steps and then b more is running a + b steps. */
  lemma {:induction false} IterateCompose<T>(f: T -> T, x: T, a: nat, b: nat)
    ensures Iterate(f, Iterate(f, x, a), b) == Iterate(f, x, a + b)
    decreases b
  {
    if b > 0 {
      IterateCompose(f, x, a, b - 1);
    }
  }
}
