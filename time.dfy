/**
 * The integer conversions of uuid47_pg.c between PostgreSQL timestamps
 * (`TimestampTz`: signed 64-bit microseconds since 2000-01-01) and the
 * unsigned 64-bit Unix milliseconds of the UUIDv7 timestamp field.
 *
 * C integers are bounded, Dafny's are not: every value is an `int` checked
 * against its C range, the `uint64_t` product `ms * 1000ULL` is reduced
 * modulo 2^64 and its cast to `int64` is the two's-complement reading.
 * Signed overflow is undefined in C, so the additions and subtractions
 * that could overflow are preconditions.
 */
module PgTime {
  const Int64Min: int := -0x8000_0000_0000_0000
  const Int64Max: int := 0x7FFF_FFFF_FFFF_FFFF
  const TwoTo64: int := 0x1_0000_0000_0000_0000

  predicate IsInt64(x: int)
  {
    Int64Min <= x <= Int64Max
  }

  predicate IsUint64(x: int)
  {
    0 <= x < TwoTo64
  }

  /** `UNIX_EPOCH_SECS_FROM_Y2000 * 1000000LL`: microseconds from 1970-01-01 to 2000-01-01. */
  const EpochOffsetUs: int := 946684800 * 1000000

  /** The largest millisecond count whose microseconds fit an `int64`. */
  const MaxExactMs: int := Int64Max / 1000

  /** `(int64)x` for a `uint64_t` x: values of 2^63 and above read as negative. */
  function ToInt64(x: int): (r: int)
    requires IsUint64(x)
    ensures IsInt64(r) && (r - x) % TwoTo64 == 0
  {
    if x <= Int64Max then x else x - TwoTo64
  }

  /** The clamp-and-divide shared by `current_unix_ms` and `timestamptz_to_unix_ms`. */
  function ClampedMs(unixUs: int): (r: int)
    requires IsInt64(unixUs)
    ensures IsUint64(r) && r <= MaxExactMs
    ensures unixUs < 0 ==> r == 0
    ensures unixUs >= 0 ==> r * 1000 <= unixUs < r * 1000 + 1000
  {
    if unixUs < 0 then 0 else unixUs / 1000
  }

  /** `us + EPOCH` in `int64` does not overflow. */
  predicate ShiftFits(pgUs: int)
  {
    IsInt64(pgUs) && pgUs + EpochOffsetUs <= Int64Max
  }

  /**
   * The arithmetic of `current_unix_ms` on a reading `pgUs` of
   * `GetCurrentTimestamp()`: Unix milliseconds, times before 1970 read as 0.
   */
  function CurrentUnixMs(pgUs: int): (r: int)
    requires ShiftFits(pgUs)
    ensures IsUint64(r)
    ensures pgUs + EpochOffsetUs < 0 ==> r == 0
    ensures pgUs + EpochOffsetUs >= 0 ==> r * 1000 <= pgUs + EpochOffsetUs < r * 1000 + 1000
  {
    ClampedMs(pgUs + EpochOffsetUs)
  }

  /** `timestamptz_to_unix_ms`: the same clamp and division on a `TimestampTz`. */
  function TimestamptzToUnixMs(ts: int): (r: int)
    requires ShiftFits(ts)
    ensures IsUint64(r) && r <= MaxExactMs
    ensures ts + EpochOffsetUs < 0 ==> r == 0
    ensures ts + EpochOffsetUs >= 0 ==> r * 1000 <= ts + EpochOffsetUs < r * 1000 + 1000
  {
    ClampedMs(ts + EpochOffsetUs)
  }

  /** The microseconds `(int64)(ms * 1000ULL)` of `unix_ms_to_timestamptz`, wrapped as C wraps them. */
  function UnixUs(ms: int): (r: int)
    requires IsUint64(ms)
    ensures IsInt64(r)
    ensures ms <= MaxExactMs ==> r == ms * 1000
  {
    ToInt64((ms * 1000) % TwoTo64)
  }

  /** Subtracting the epoch offset from `UnixUs(ms)` does not overflow. */
  predicate UnshiftFits(ms: int)
  {
    IsUint64(ms) && UnixUs(ms) - EpochOffsetUs >= Int64Min
  }

  /** `unix_ms_to_timestamptz`: a Unix millisecond count as a `TimestampTz`. */
  function UnixMsToTimestamptz(ms: int): (r: int)
    requires UnshiftFits(ms)
    ensures IsInt64(r)
    ensures ms <= MaxExactMs ==> r + EpochOffsetUs == ms * 1000
  {
    UnixUs(ms) - EpochOffsetUs
  }

  /** Every millisecond count that fits the 48-bit UUIDv7 field converts without overflow. */
  lemma TimestampFieldConverts(ms: int)
    requires 0 <= ms < 0x1_0000_0000_0000
    ensures UnshiftFits(ms) && ShiftFits(UnixMsToTimestamptz(ms))
  {
  }

  /** A millisecond count survives the trip to a `TimestampTz` and back. */
  lemma TimestampRoundTrip(ms: int)
    requires 0 <= ms <= MaxExactMs
    ensures UnshiftFits(ms) && ShiftFits(UnixMsToTimestamptz(ms))
    ensures TimestamptzToUnixMs(UnixMsToTimestamptz(ms)) == ms
  {
    var ts := UnixMsToTimestamptz(ms);
    assert ts + EpochOffsetUs == ms * 1000;
  }

  /** A later timestamp never gives fewer milliseconds. */
  lemma TimestamptzToUnixMsMonotone(a: int, b: int)
    requires ShiftFits(a) && ShiftFits(b) && a <= b
    ensures TimestamptzToUnixMs(a) <= TimestamptzToUnixMs(b)
  {
  }

  /** More milliseconds give a strictly later timestamp while no wrap-around occurs. */
  lemma UnixMsToTimestamptzIncreasing(a: int, b: int)
    requires 0 <= a < b <= MaxExactMs
    ensures UnshiftFits(a) && UnshiftFits(b)
    ensures UnixMsToTimestamptz(a) < UnixMsToTimestamptz(b)
  {
  }

  /** `current_unix_ms` is `timestamptz_to_unix_ms` applied to the clock reading. */
  lemma CurrentUnixMsIsConversion(pgUs: int)
    requires ShiftFits(pgUs)
    ensures CurrentUnixMs(pgUs) == TimestamptzToUnixMs(pgUs)
  {
  }

  /** Every instant before 1970 reads as millisecond 0. */
  lemma BeforeUnixEpochClamps(ts: int)
    requires ShiftFits(ts) && ts < -EpochOffsetUs
    ensures TimestamptzToUnixMs(ts) == 0
  {
  }
}
