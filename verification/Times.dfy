/** Times and durations as integer nanoseconds; times count from the epoch in UTC. */
module Times {

  const SECOND: int := 1_000_000_000
  const DAY: int := 86_400 * SECOND

  /** What formatting and parsing by section 5.6 of RFC 3339 keeps of a time. */
  function Truncated(t: int): int {
    t - t % SECOND
  }
}
