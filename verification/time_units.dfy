/** Durations and instants are counted in .NET ticks of 100 ns, the unit of
    `TimeSpan` and `DateTimeOffset`. */
module TimeUnits {
  const TicksPerMillisecond: int := 10_000
  const TicksPerSecond: int := 10_000_000
}
