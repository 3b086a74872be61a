/** Time that has passed, as `Instant::elapsed` tells it. */
module Clock {

  /** From `since` to `now`; nothing if the clock is behind. */
  function Elapsed(since: nat, now: nat): nat {
    if now >= since then now - since else 0
  }
}
