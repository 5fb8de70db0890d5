/** Durations in nanoseconds, as time.Duration counts them, and those the limiters share. */
module Durations {
  const SECOND := 1_000_000_000
  const MINUTE := 60 * SECOND
  const HOUR := 60 * MINUTE

  /** How often idle buckets are looked for, and after how long they are idle. */
  const GC_INTERVAL := MINUTE
  const MAX_IDLE := 2 * MINUTE
}
