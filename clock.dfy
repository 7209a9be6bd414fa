/** Points in time as .NET ticks (100 ns), the unit of DateTime and
    DateTimeOffset. */
module Clock {
  const TicksPerSecond := 10_000_000
  const TicksPerMinute := 60 * TicksPerSecond
  /** DateTimeOffset.MinValue: tick 0. */
  const MinValue := 0
}
