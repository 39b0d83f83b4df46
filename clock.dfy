/**
 * `DateTimeOffset` instants and the lifetimes of the session tokens. The
 * clock itself (`DateTimeOffset.UtcNow`) is read by the caller and passed
 * to every operation as `now`.
 */
module Clock {

  /** An instant as a count of 100-nanosecond ticks, the unit of `DateTimeOffset`. */
  type Instant = int

  const TicksPerSecond: int := 10_000_000
  const TicksPerMinute: int := 60 * TicksPerSecond
  const TicksPerDay: int := 24 * 60 * TicksPerMinute

  /** `DateTimeOffset.AddMinutes`. */
  function AddMinutes(t: Instant, minutes: int): Instant {
    t + minutes * TicksPerMinute
  }

  /** `DateTimeOffset.AddDays`. */
  function AddDays(t: Instant, days: int): Instant {
    t + days * TicksPerDay
  }

  /** A refresh token lives for 7 days. */
  const RefreshTokenLifetimeDays: int := 7

  /** An access token lives for 60 minutes. */
  const AccessTokenLifetimeMinutes: int := 60
}
