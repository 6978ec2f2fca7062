/** Instants, as Unix nanoseconds in UTC. */
module GoTime {
  const NANOS := 1_000_000_000

  /** Go's zero time, 0001-01-01. */
  const ZERO_TIME := -62135596800 * 1_000_000_000
}
