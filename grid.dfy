/**
 * The time grid shared by the duration parser, the placement engine and the
 * drag resolver: one hour is 60 px, so one pixel is one minute, and every
 * quantity is quantized to a 15-minute step.
 */
module Grid {

  /** Optional values, used for JavaScript's `null`. */
  datatype Option<+T> = None | Some(value: T)

  /** The quantization step, in minutes (and pixels). */
  const Step: int := 15

  /** Minutes (and pixels) per hour. */
  const MinutesPerHour: int := 60

  /**
   * `Math.round(x / 15) * 15` for the exact rational x = num / den.
   * `Math.round` rounds halves towards +infinity, so it is floor(x/15 + 1/2),
   * which is floor((2*num + 15*den) / (30*den)) with a positive divisor.
   */
  function RoundToStep(num: int, den: int): (r: int)
    requires den > 0
    ensures r % Step == 0
  {
    Step * ((2 * num + Step * den) / (30 * den))
  }

  /**
   * The result is the multiple of 15 nearest to x = num / den, ties going
   * up, and it is not negative when x is not.
   */
  lemma RoundToStepNearest(num: int, den: int)
    requires den > 0
    ensures var r := RoundToStep(num, den);
      -Step * den < 2 * (r * den - num) <= Step * den
      && (num >= 0 ==> r >= 0)
  {
    var d := 30 * den;
    var x := 2 * num + Step * den;
    var q := x / d;
    assert x == d * q + x % d && 0 <= x % d < d;
    assert 2 * (Step * q * den - num) == Step * den - x % d by {
      assert Step * q * den * 2 == d * q;
    }
  }

  /** The JavaScript expression `Math.round(n / 15) * 15` on an integer n. */
  function Snap(n: int): (r: int)
    ensures r % Step == 0
    ensures -Step < 2 * (r - n) <= Step
  {
    RoundToStepNearest(n, 1);
    RoundToStep(n, 1)
  }

  /**
   * `(sleepTime - wakeTime) * 60 - duration * 60`: the largest offset from the
   * wake time at which a task of the given duration (in minutes) still ends
   * by the sleep time. Used as the placement bound and as the drag bound.
   */
  function MaxOffset(wake: int, sleep: int, duration: int): int
  {
    (sleep - wake) * MinutesPerHour - duration
  }

  /** A snapped value is its own snap: snapping is idempotent. */
  lemma SnapIdempotent(n: int)
    ensures Snap(Snap(n)) == Snap(n)
  {
    SnapOfMultiple(Snap(n));
  }

  /** Snapping leaves multiples of the step where they are. */
  lemma SnapOfMultiple(n: int)
    requires n % Step == 0
    ensures Snap(n) == n
  {
    var r := Snap(n);
    assert (r - n) % Step == 0;
    var k := (r - n) / Step;
    assert r - n == Step * k;
  }
}
