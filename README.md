# Paste lifecycle rules of a minimal pastebin

This project models, in Dafny, the rules that decide the life of a paste in a
small pastebin service: when a paste has expired, when it may still be served,
how many views it has left, what absolute expiry instant is shown to clients,
how the current time is read (with a header that overrides the clock in test
mode), and how a creation request is validated. These rules live in
`src/lib/time.ts` and `src/lib/paste.ts` and are pure functions; the model
states them as Dafny functions and proves their properties as lemmas.

Files:

- `wrappers.dfy` — `Option` (a JavaScript `null`/`undefined`) and `Result`.
- `ecmascript.dfy` — the ECMAScript built-ins the rules rely on: the
  white-space set (sections 12.2 and 12.3 of ECMA-262), `String.prototype.trim`,
  and `parseInt(s, 10)` (section 19.2.5 of ECMA-262), with a decimal rendering
  of integers that `parseInt` inverts.
- `time.dfy` — `getCurrentTime`, `isPasteExpired`, `getExpiryTimestamp`.
- `paste.dfy` — the `Paste` record, `isPasteAvailable`, `getRemainingViews`,
  `validatePasteInput` with its request, result and error types.
- `fetch.dfy` — the decision the fetch handler (`GET /api/pastes/{id}` in
  `src/app/api/pastes/[id]/route.ts`, lines 18-55) takes on a looked-up paste:
  serve it and count a view, reporting the views left after this read, or
  answer "not found"; and what a run of fetches does. Its rows below cite the
  guards of `src/lib/paste.ts` and `src/lib/time.ts` that each property rests
  on.

Instants are integer milliseconds since the epoch, TTLs integer seconds. The
environment variable `TEST_MODE`, the override header and `Date.now()` are
parameters of `GetCurrentTime`. A JSON request body is a `PasteRequest` of
three optional `Value`s, where an absent property (`undefined`) is `None` and
differs from a JSON `null`.

## Model

| member | source | states |
|---|---|---|
| `EcmaScript.Trim` | src/lib/paste.ts:51 | `trim()` yields the empty string exactly when the input is all white space; otherwise the result starts and ends with non-white-space |
| `EcmaScript.ParseIntOfDecimal` | src/lib/time.ts:8 | `parseInt(s, 10)` reads back any integer written in decimal, after any leading white space and before any trailer that does not continue the digits |
| `EcmaScript.ParseIntRoundTrip` | src/lib/time.ts:8 | `parseInt` inverts the decimal rendering of every integer |
| `EcmaScript.ParseIntSkipsWhitespace` | src/lib/time.ts:8 | leading white space never changes what `parseInt` yields |
| `EcmaScript.ParseIntNeedsDigit` | src/lib/time.ts:8-9 | a string with no decimal digit parses to NaN (`None`) |
| `EcmaScript.ParseIntNaNExactly` | src/lib/time.ts:8-9 | `parseInt` gives NaN exactly when no decimal digit follows the leading white space and at most one sign |
| `EcmaScript.ParseIntOfNumeral` | src/lib/time.ts:8 | any non-empty digit string, with an optional `+` or `-`, after white space and before a non-digit trailer, parses to its signed value; leading zeros allowed |
| `EcmaScript.ParseIntRejectsMisplacedSigns` | src/lib/time.ts:8-9 | "x5", "- 5" and "+-5" parse to NaN |
| `EcmaScript.ParseIntAcceptsPlusSign` | src/lib/time.ts:8 | "+5" parses to 5 |
| `EcmaScript.ParseIntAcceptsLeadingZeros` | src/lib/time.ts:8 | "007" parses to 7 |
| `EcmaScript.ParseIntIgnoresTrailer` | src/lib/time.ts:8 | " -12ms" parses to -12 |
| `Time.GetCurrentTime` | src/lib/time.ts:5-15 | the wall clock unless test mode is exactly "1", a header is supplied and `parseInt` finds a number in it; in that case the parsed number |
| `Time.GetCurrentTimeHonoursOverride` | src/lib/time.ts:7-11 | in test mode a header holding the decimal form of `n` sets the clock to `n` whatever the wall clock says |
| `Time.NeverExpiresWithoutTtl` | src/lib/time.ts:25-34 | with no TTL a paste is never expired, at any time |
| `Time.ExpiredExactlyFromDeadline` | src/lib/time.ts:40-41 | with TTL `t` a paste is not expired before `created + t*1000` and is expired from that instant on (boundary inclusive) |
| `Time.ExpiryIsMonotone` | src/lib/time.ts:40-41 | once expired, a paste is expired at every later time |
| `Time.GetExpiryTimestamp` | src/lib/time.ts:47-89 | any expiry instant returned is later than the creation time and within the ECMAScript time range |
| `Time.ExpiryTimestampNullWhenCreatedNonPositive` | src/lib/time.ts:63-67 | a non-positive creation time gives no timestamp |
| `Time.ExpiryTimestampNullWithoutPositiveTtl` | src/lib/time.ts:69-71 | an absent or non-positive TTL gives no timestamp |
| `Time.ExpiryTimestampWithinRange` | src/lib/time.ts:73-88 | with positive inputs the timestamp is exactly `created + ttl*1000`, or none when that exceeds 8640000000000000 ms |
| `Time.ExpiryTimestampAgreesWithExpiry` | src/lib/time.ts:40-41 | when a timestamp `e` is returned, the paste is expired at `now` exactly when `now >= e` |
| `Pastes.GetRemainingViews` | src/lib/paste.ts:27-34 | no count exactly when there is no view limit; otherwise `max(0, max_views - view_count)`, never negative |
| `Pastes.ExhaustedPasteUnavailable` | src/lib/paste.ts:12-14 | a paste whose view count reached its limit is unavailable whatever its TTL or the time |
| `Pastes.ExpiredPasteUnavailable` | src/lib/paste.ts:17-19 | an expired paste is unavailable whatever views it has left |
| `Pastes.AvailableIffWithinLimits` | src/lib/paste.ts:7-22 | a paste is available exactly when it is under its view limit (if any) and before its expiry instant (if any) |
| `Pastes.AvailablePasteHasViewLeft` | src/lib/paste.ts:12-33 | an available paste with a view limit has `max_views - view_count >= 1` views left |
| `Pastes.UnavailabilityIsPermanent` | src/lib/paste.ts:7-22 | more views and a later clock never make an unavailable paste available again |
| `Pastes.ValidatePasteInput` | src/lib/paste.ts:49-74 | content error exactly when content is not a string with a non-white-space character; else TTL error exactly when a present `ttl_seconds` is not an integer >= 1; else the same for `max_views`; on success content is untrimmed and the counts pass through, absent ones absent |
| `Pastes.ValidatedCountsArePositive` | src/lib/paste.ts:56-67 | a validated request has non-empty content and counts that are at least 1 when present |
| `Fetching.Fetch` | src/lib/paste.ts:7-22 | a paste is served exactly when it is found and available; a served paste's view count goes up by one and nothing else changes; a refused fetch changes nothing |
| `Fetching.ServedRemainingViewsCountThisRead` | src/lib/paste.ts:27-34 | the remaining views in a served answer are those after this read, `max_views - view_count - 1` |
| `Fetching.FetchAll` | src/lib/paste.ts:7-22 | after a run of fetches the view count has grown by the number served, which is at most the number of fetches |
| `Fetching.ViewLimitBoundsServedFetches` | src/lib/paste.ts:12-14 | sequential fetches serve a paste at most `max(0, max_views - view_count)` times |
| `Fetching.ViewLimitServesExactly` | src/lib/paste.ts:12-14 | without a TTL, sequential fetches serve exactly `min(fetches, max(0, max_views - view_count))` |
| `Fetching.SingleViewPasteServedOnce` | src/lib/paste.ts:12-14 | a paste limited to one view is served once reporting 0 views left, then refused |
| `Fetching.TtlPasteRefusedFromExpiry` | src/lib/time.ts:40-41 | a paste with views left is served exactly before `created + ttl*1000` |

## Left out

- Storage (`src/lib/db.ts`): table creation, insert, lookup, the view-count
  increment and the health probe go through an external SQL library; only the
  `Paste` record shape is modelled. In `Fetching` the store is the
  `Option<Paste>` a lookup returned, and the increment is the returned paste.
- HTTP handling in `src/app/api/pastes/route.ts`, `src/app/api/pastes/[id]/route.ts`
  and `src/app/api/healthz/route.ts`: JSON parsing, status codes, id
  generation, the base URL from the environment and the 500 paths. A request
  body that is `null` (where reading `input.content` throws) is such a path;
  the model's request is always a record.
- The React form and pages, including the form's own client-side checks.
- Concurrency: the read-then-increment race between simultaneous fetches. The
  fetch lemmas describe fetches one after another.
- Floating point: timestamps, TTLs and counts are mathematical integers. The
  NaN guards of `getExpiryTimestamp` fold into its `None` cases, and the
  bigint/string conversions of stored values are not modelled.
- `EcmaScript.ParseInt`: `parseInt` returns a double, so digit strings beyond
  2^53 round and very long ones give `Infinity`; the model keeps the exact
  integer.
- `Time.GetExpiryTimestamp` returns the instant in milliseconds; its rendering
  by `toISOString` and the `console.error` logging are not modelled.
- Strings are sequences of Unicode scalar values rather than UTF-16 code
  units; every white-space character is in the Basic Multilingual Plane, so
  `trim` and `parseInt` see the same characters either way.
