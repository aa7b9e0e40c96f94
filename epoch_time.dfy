/** Epoch conversion (`GetEpochTime`): a `DateTime` is a count of 100-nanosecond
    ticks since 0001-01-01; the result is the number of whole milliseconds since
    1970-01-01T00:00:00Z, the fraction cut off toward zero by the `(long)` cast. */
module EpochTime {

  const TicksPerMillisecond: int := 10000

  /** `new DateTime(1970, 1, 1, 0, 0, 0, DateTimeKind.Utc).Ticks` */
  const UnixEpochTicks: int := 621355968000000000

  /** `DateTime.MaxValue.Ticks` (9999-12-31T23:59:59.9999999) */
  const MaxTicks: int := 3155378975999999999

  const LongMin: int := -0x8000_0000_0000_0000
  const LongMax: int := 0x7FFF_FFFF_FFFF_FFFF

  /** The range of `DateTime.Ticks`. */
  type DateTimeTicks = t: int | 0 <= t <= MaxTicks

  /** Milliseconds in a tick difference, truncated toward zero as C#'s cast to `long`
      does (Dafny's own `/` rounds toward minus infinity on negative numbers). */
  function TruncateToMillis(ticks: int): (ms: int)
    ensures 0 <= ticks ==> 0 <= ms * TicksPerMillisecond <= ticks < ms * TicksPerMillisecond + TicksPerMillisecond
    ensures ticks < 0 ==> ms * TicksPerMillisecond - TicksPerMillisecond < ticks <= ms * TicksPerMillisecond <= 0
  {
    if ticks >= 0 then ticks / TicksPerMillisecond
    else -((-ticks) / TicksPerMillisecond)
  }

  /** `GetEpochTime(dateTime)` */
  function GetEpochTime(dateTime: DateTimeTicks): (ms: int)
    ensures -62135596800000 <= ms <= 253402300799999
    ensures LongMin <= ms <= LongMax
    ensures UnixEpochTicks <= dateTime ==>
      0 <= ms * TicksPerMillisecond <= dateTime - UnixEpochTicks < ms * TicksPerMillisecond + TicksPerMillisecond
    ensures dateTime < UnixEpochTicks ==>
      ms * TicksPerMillisecond - TicksPerMillisecond < dateTime - UnixEpochTicks <= ms * TicksPerMillisecond <= 0
  {
    TruncateToMillis(dateTime - UnixEpochTicks)
  }

  /** The inverse direction: the tick count of a whole number of epoch milliseconds. */
  function TicksOfEpochMillis(ms: int): int {
    UnixEpochTicks + ms * TicksPerMillisecond
  }

  /** Whole milliseconds convert exactly: converting the tick count of `ms` epoch
      milliseconds gives `ms` back. */
  lemma EpochMillisRoundTrip(ms: int)
    requires 0 <= TicksOfEpochMillis(ms) <= MaxTicks
    ensures GetEpochTime(TicksOfEpochMillis(ms)) == ms
  {
    var t := TicksOfEpochMillis(ms);
    var r := GetEpochTime(t);
    if UnixEpochTicks <= t {
      assert r * TicksPerMillisecond <= ms * TicksPerMillisecond < r * TicksPerMillisecond + TicksPerMillisecond;
    } else {
      assert r * TicksPerMillisecond - TicksPerMillisecond < ms * TicksPerMillisecond <= r * TicksPerMillisecond;
    }
  }

  /** The epoch itself is 0. */
  lemma EpochIsZero()
    ensures GetEpochTime(UnixEpochTicks) == 0
  {
  }

  /** A later date never gives a smaller number. */
  lemma GetEpochTimeMonotone(earlier: DateTimeTicks, later: DateTimeTicks)
    requires earlier <= later
    ensures GetEpochTime(earlier) <= GetEpochTime(later)
  {
  }

  /** The conversion is not strictly monotone: dates less than a millisecond apart
      can give the same number, and because of truncation toward zero every date
      from 9999 ticks before the epoch to 9999 ticks after it gives 0. */
  lemma TruncationMergesNearbyDates()
    ensures GetEpochTime(UnixEpochTicks) == GetEpochTime(UnixEpochTicks + 1) == 0
    ensures GetEpochTime(UnixEpochTicks - 9999) == GetEpochTime(UnixEpochTicks + 9999) == 0
    ensures GetEpochTime(UnixEpochTicks - 10000) == -1
  {
  }

  /** 2010-01-01T00:00:00Z is 1262304000000 milliseconds after the epoch. */
  lemma StartOf2010()
    ensures GetEpochTime(633979008000000000) == 1262304000000
  {
  }
}
