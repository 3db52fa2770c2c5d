/** Instants, in nanoseconds from the Unix epoch, and the two rules every record
    shares about them. Nothing bounds what a clock may read. */
module Clock {

  type Instant = int

  /** Go's zero time.Time, the first instant of year 1. */
  const ZERO_INSTANT: Instant := -62_135_596_800_000_000_000
  const MIN_RANKABLE: Instant := -0x8000_0000_0000_0000
  const MAX_RANKABLE: Instant := 0x7FFF_FFFF_FFFF_FFFF
  const HOUR: int := 3_600_000_000_000

  predicate Rankable(t: Instant) { MIN_RANKABLE <= t <= MAX_RANKABLE }

  /** A caller's expiry lapses in the store's future, and within `max` of it. */
  predicate BoundedExpiry(expiresAt: Instant, now: Instant, max: int) { now < expiresAt && expiresAt - now <= max }

  /** Go's UnixMilli rounds toward the past, as Euclidean division does. */
  function UnixMilli(t: Instant): int { t / 1_000_000 }

  /** What has come to pass is filed at or before the present millisecond, and
      nothing is filed a whole millisecond early. */
  lemma FiledToTheMillisecond(t: Instant, now: Instant)
    ensures t <= now ==> UnixMilli(t) <= UnixMilli(now)
    ensures UnixMilli(t) <= UnixMilli(now) ==> t - now < 1_000_000
  {
  }
}
