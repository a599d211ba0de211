/** The waiting time reported by the two rate-limited actions. Both compute
    `Math.ceil` of a millisecond difference divided by 1000; on integers of
    milliseconds that is exact ceiling division. */
module Cooldown {

  /** `Math.ceil(ms / 1000)`: the least whole number of seconds covering `ms`. */
  function CeilSeconds(ms: int): (q: int)
    ensures 1000 * q >= ms > 1000 * (q - 1)
  {
    if ms % 1000 == 0 then ms / 1000 else ms / 1000 + 1
  }

  /** Seconds still to wait in a window of `window` ms once `elapsed` ms
      have passed since the last issue. */
  function SecondsLeft(window: int, elapsed: int): int
  {
    CeilSeconds(window - elapsed)
  }

  /** The characterisation of `CeilSeconds` fixes it uniquely. */
  lemma CeilSecondsUnique(ms: int, q: int)
    requires 1000 * q >= ms > 1000 * (q - 1)
    ensures CeilSeconds(ms) == q
  {
  }

  /** Inside the window the wait is at least one second and at most the
      window itself, rounded up to seconds. */
  lemma SecondsLeftWithinWindow(window: int, elapsed: int)
    requires 0 <= elapsed < window
    ensures 1 <= SecondsLeft(window, elapsed) <= CeilSeconds(window)
  {
  }

  /** The wait never grows as the clock advances. */
  lemma SecondsLeftNonIncreasing(window: int, e1: int, e2: int)
    requires e1 <= e2
    ensures SecondsLeft(window, e2) <= SecondsLeft(window, e1)
  {
  }

  /** Each further full second of waiting lowers the report by exactly one. */
  lemma SecondsLeftTicks(window: int, elapsed: int)
    ensures SecondsLeft(window, elapsed + 1000) == SecondsLeft(window, elapsed) - 1
  {
    CeilSecondsUnique(window - elapsed - 1000, SecondsLeft(window, elapsed) - 1);
  }
}
