/** The `java.util.concurrent.TimeUnit` conversions the countdown uses.
    Down-conversions divide, truncating toward zero (the same as Dafny's
    division for the non-negative counts used here); up-conversions multiply
    and saturate at the Long bounds instead of wrapping. */
module TimeUnit {
  import opened KotlinLong

  const MillisPerSecond: nat := 1000
  const MillisPerMinute: nat := 60_000
  const MillisPerHour: nat := 3_600_000

  /** `TimeUnit.MILLISECONDS.toHours(d)`. Java's long division rounds toward
      zero, which equals Dafny's `/` on a `NonNegLong`. */
  function MillisToHours(d: NonNegLong): NonNegLong
  {
    d / MillisPerHour
  }

  /** `TimeUnit.MILLISECONDS.toMinutes(d)`. Java's long division rounds toward
      zero, which equals Dafny's `/` on a `NonNegLong`. */
  function MillisToMinutes(d: NonNegLong): NonNegLong
  {
    d / MillisPerMinute
  }

  /** `TimeUnit.MILLISECONDS.toSeconds(d)`. Java's long division rounds toward
      zero, which equals Dafny's `/` on a `NonNegLong`. */
  function MillisToSeconds(d: NonNegLong): NonNegLong
  {
    d / MillisPerSecond
  }

  /** TimeUnit's scaling multiply by 60: it compares against `Long.MAX_VALUE / 60`
      first and answers a bound rather than overflow. The result is the exact
      product pulled back into the Long range. */
  function TimesSixtySaturating(d: Long): (r: Long)
    ensures r == Clamp(d * 60)
  {
    if d > LongMax / 60 then LongMax
    else if d < -(LongMax / 60) then LongMin
    else d * 60
  }

  /** `TimeUnit.HOURS.toMinutes(h)`. */
  function HoursToMinutes(h: Long): Long
  {
    TimesSixtySaturating(h)
  }

  /** `TimeUnit.MINUTES.toSeconds(m)`. */
  function MinutesToSeconds(m: Long): Long
  {
    TimesSixtySaturating(m)
  }
}
