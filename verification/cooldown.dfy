/**
 * The five-minute rate-limit window and the remaining wait in whole
 * seconds. Times are integer milliseconds since the epoch.
 */
module Cooldown {
  import opened Wrappers

  /** Five minutes, in milliseconds. */
  const CooldownMs: int := 5 * 60 * 1000

  const MsPerSecond: int := 1000

  /** Whether a pixel placed at `t` still holds its author in timeout at `now`:
      strictly later than five minutes ago. */
  predicate InWindow(t: int, now: int) {
    t > now - CooldownMs
  }

  /** The ceiling of n / d for a positive divisor (Math.ceil of the quotient). */
  function CeilDiv(n: int, d: int): (q: int)
    requires d > 0
    ensures (q - 1) * d < n <= q * d
  {
    -((-n) / d)
  }

  /** Seconds the caller still has to wait, given the creation time of the
      caller's most recent pixel (None when there is none). */
  function WaitTime(latest: Option<int>, now: int): (w: int)
    ensures w >= 0
    ensures w > 0 <==> latest.Some? && InWindow(latest.value, now)
    ensures w > 0 ==> (w - 1) * MsPerSecond < latest.value + CooldownMs - now <= w * MsPerSecond
    ensures latest.Some? && latest.value <= now ==> w <= CooldownMs / MsPerSecond
  {
    match latest
    case None => 0
    case Some(t) =>
      if InWindow(t, now) then CeilDiv(t + CooldownMs - now, MsPerSecond) else 0
  }
}
