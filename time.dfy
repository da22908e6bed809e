/** The time rules of src/lib/time.ts: the clock with its test override, the
    expiry test, and the absolute expiry instant shown to clients. Instants
    are integer milliseconds since the epoch; TTLs are integer seconds. */
module Time {
  import opened Wrappers
  import opened EcmaScript

  const MsPerSecond: int := 1000

  /** Largest magnitude of an ECMAScript time value, in milliseconds
      (section 21.4.1.1 of ECMA-262, "Time Values and Time Range"). */
  const MaxTimeValue: int := 8_640_000_000_000_000

  /** The instant a TTL of `ttlSeconds` runs out for a paste created at
      `createdAt`. */
  function ExpiryInstant(createdAt: int, ttlSeconds: int): int {
    createdAt + ttlSeconds * MsPerSecond
  }

  /** Test mode is on only when the environment variable holds exactly "1". */
  predicate TestModeEnabled(testModeEnv: Option<string>) {
    testModeEnv == Some("1")
  }

  /** The current time. `testModeEnv` is the `TEST_MODE` environment variable,
      `testNowHeader` the override header and `wallClock` what `Date.now()`
      reads. The header is used only in test mode, only when it is a non-empty
      string, and only when `parseInt` finds a number in it. */
  function GetCurrentTime(testModeEnv: Option<string>, testNowHeader: Option<string>, wallClock: int): (now: int)
    ensures now == wallClock
            || (TestModeEnabled(testModeEnv) && testNowHeader.Some? && ParseInt(testNowHeader.value) == Some(now))
    ensures !TestModeEnabled(testModeEnv) ==> now == wallClock
    ensures testNowHeader.None? ==> now == wallClock
    ensures testNowHeader.Some? && ParseInt(testNowHeader.value).None? ==> now == wallClock
    ensures (TestModeEnabled(testModeEnv) && testNowHeader.Some? && ParseInt(testNowHeader.value).Some?) ==>
              now == ParseInt(testNowHeader.value).value
  {
    if TestModeEnabled(testModeEnv) && testNowHeader.Some? && testNowHeader.value != "" then
      match ParseInt(testNowHeader.value)
      case Some(testTime) => testTime
      case None => wallClock
    else
      wallClock
  }

  /** In test mode a header carrying the decimal form of `n` (with optional
      leading white space and a trailer that does not continue the digits)
      sets the clock to `n`, whatever the wall clock says. */
  lemma GetCurrentTimeHonoursOverride(ws: string, n: int, tail: string, wallClock: int)
    requires AllWhitespace(ws)
    requires tail == [] || !IsDecimalDigit(tail[0])
    ensures GetCurrentTime(Some("1"), Some(ws + DecimalString(n) + tail), wallClock) == n
  {
    ParseIntOfDecimal(ws, n, tail);
  }

  /** Whether a paste created at `createdAt` with TTL `ttlSeconds` has expired
      at `currentTime`. No TTL means it never expires; otherwise the expiry
      instant itself already counts as expired. */
  predicate IsPasteExpired(createdAt: int, ttlSeconds: Option<int>, currentTime: int) {
    match ttlSeconds
    case None => false
    case Some(ttl) => currentTime >= ExpiryInstant(createdAt, ttl)
  }

  lemma NeverExpiresWithoutTtl(createdAt: int, currentTime: int)
    ensures !IsPasteExpired(createdAt, None, currentTime)
  {
  }

  /** With a TTL, a paste is expired exactly from `createdAt + ttl * 1000` on. */
  lemma ExpiredExactlyFromDeadline(createdAt: int, ttl: int, currentTime: int)
    ensures currentTime < createdAt + ttl * 1000 ==> !IsPasteExpired(createdAt, Some(ttl), currentTime)
    ensures currentTime >= createdAt + ttl * 1000 ==> IsPasteExpired(createdAt, Some(ttl), currentTime)
  {
  }

  /** Once expired, a paste stays expired as time moves on. */
  lemma ExpiryIsMonotone(createdAt: int, ttlSeconds: Option<int>, now: int, later: int)
    requires now <= later
    requires IsPasteExpired(createdAt, ttlSeconds, now)
    ensures IsPasteExpired(createdAt, ttlSeconds, later)
  {
  }

  /** The absolute instant at which a paste expires, for display. It fails
      closed to `None` on a non-positive creation time, on an absent or
      non-positive TTL, and on an instant outside the ECMAScript time range.
      A result is always positive, later than the creation time and inside
      that range. */
  function GetExpiryTimestamp(createdAt: int, ttlSeconds: Option<int>): (expiresAt: Option<int>)
    ensures expiresAt.Some? ==> createdAt < expiresAt.value <= MaxTimeValue
  {
    // The zero tests are the `!created` and `!expiresAtMs` tests of
    // getExpiryTimestamp, kept beside the range tests they overlap with.
    if createdAt == 0 || createdAt <= 0 then None
    else match ttlSeconds
      case None => None
      case Some(ttl) =>
        if ttl <= 0 then None
        else
          var expiresAtMs := ExpiryInstant(createdAt, ttl);
          if expiresAtMs == 0 || Abs(expiresAtMs) > MaxTimeValue then None
          else Some(expiresAtMs)
  }

  function Abs(x: int): (r: nat)
    ensures r == x || r == -x
  {
    if x < 0 then -x else x
  }

  lemma ExpiryTimestampNullWhenCreatedNonPositive(createdAt: int, ttlSeconds: Option<int>)
    requires createdAt <= 0
    ensures GetExpiryTimestamp(createdAt, ttlSeconds) == None
  {
  }

  lemma ExpiryTimestampNullWithoutPositiveTtl(createdAt: int, ttlSeconds: Option<int>)
    requires ttlSeconds.None? || ttlSeconds.value <= 0
    ensures GetExpiryTimestamp(createdAt, ttlSeconds) == None
  {
  }

  /** With a positive creation time and a positive TTL the timestamp is
      exactly `createdAt + ttl * 1000`, unless that leaves the time range. */
  lemma ExpiryTimestampWithinRange(createdAt: int, ttl: int)
    requires createdAt > 0 && ttl > 0
    ensures createdAt + ttl * 1000 > 8_640_000_000_000_000 ==> GetExpiryTimestamp(createdAt, Some(ttl)) == None
    ensures createdAt + ttl * 1000 <= 8_640_000_000_000_000 ==> GetExpiryTimestamp(createdAt, Some(ttl)) == Some(createdAt + ttl * 1000)
  {
  }

  /** The displayed timestamp and the expiry test agree: when a timestamp is
      shown, the paste is expired exactly from that instant on. */
  lemma ExpiryTimestampAgreesWithExpiry(createdAt: int, ttlSeconds: Option<int>, currentTime: int)
    requires GetExpiryTimestamp(createdAt, ttlSeconds).Some?
    ensures IsPasteExpired(createdAt, ttlSeconds, currentTime)
            <==> currentTime >= GetExpiryTimestamp(createdAt, ttlSeconds).value
  {
  }
}
