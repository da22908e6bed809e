/** The paste rules of src/lib/paste.ts: availability, remaining views and
    validation of a creation request. */
module Pastes {
  import opened Wrappers
  import opened EcmaScript
  import opened Time

  /** A stored paste, as the store returns it (src/lib/db.ts). `None` stands
      for a SQL NULL: no TTL, or no view limit. */
  datatype Paste = Paste(
    id: string,
    content: string,
    createdAt: int,
    ttlSeconds: Option<int>,
    maxViews: Option<int>,
    viewCount: int)

  /** The paste has a view limit and has used it up. */
  predicate ViewsExhausted(paste: Paste) {
    paste.maxViews.Some? && paste.viewCount >= paste.maxViews.value
  }

  /** A paste is served only while it is neither view-exhausted nor expired;
      the view limit is looked at first. */
  predicate IsPasteAvailable(paste: Paste, currentTime: int) {
    if ViewsExhausted(paste) then false
    else if IsPasteExpired(paste.createdAt, paste.ttlSeconds, currentTime) then false
    else true
  }

  /** Views left before the limit is reached: `None` without a limit,
      otherwise `max(0, maxViews - viewCount)`. */
  function GetRemainingViews(paste: Paste): (remaining: Option<int>)
    ensures remaining.None? <==> paste.maxViews.None?
    ensures remaining.Some? ==>
              && remaining.value >= 0
              && remaining.value >= paste.maxViews.value - paste.viewCount
              && (remaining.value == 0 || remaining.value == paste.maxViews.value - paste.viewCount)
  {
    match paste.maxViews
    case None => None
    case Some(maxViews) =>
      var remaining := maxViews - paste.viewCount;
      Some(if remaining < 0 then 0 else remaining)
  }

  lemma ExhaustedPasteUnavailable(paste: Paste, currentTime: int)
    requires paste.maxViews.Some? && paste.viewCount >= paste.maxViews.value
    ensures !IsPasteAvailable(paste, currentTime)
  {
  }

  lemma ExpiredPasteUnavailable(paste: Paste, currentTime: int)
    requires IsPasteExpired(paste.createdAt, paste.ttlSeconds, currentTime)
    ensures !IsPasteAvailable(paste, currentTime)
  {
  }

  /** Availability in plain arithmetic: under the view limit (if any) and
      before the expiry instant (if any). */
  lemma AvailableIffWithinLimits(paste: Paste, currentTime: int)
    ensures IsPasteAvailable(paste, currentTime) <==>
              && (paste.maxViews.None? || paste.viewCount < paste.maxViews.value)
              && (paste.ttlSeconds.None? || currentTime < paste.createdAt + paste.ttlSeconds.value * 1000)
  {
  }

  /** A paste that can still be served with a view limit has a view left. */
  lemma AvailablePasteHasViewLeft(paste: Paste, currentTime: int)
    requires IsPasteAvailable(paste, currentTime) && paste.maxViews.Some?
    ensures GetRemainingViews(paste) == Some(paste.maxViews.value - paste.viewCount)
    ensures GetRemainingViews(paste).value >= 1
  {
  }

  /** Unavailability is permanent: more views and a later clock never bring
      a paste back. */
  lemma UnavailabilityIsPermanent(paste: Paste, now: int, later: int, moreViews: nat)
    requires now <= later
    requires !IsPasteAvailable(paste, now)
    ensures !IsPasteAvailable(paste.(viewCount := paste.viewCount + moreViews), later)
  {
    if !ViewsExhausted(paste) {
      ExpiryIsMonotone(paste.createdAt, paste.ttlSeconds, now, later);
    }
  }

  /** A JSON value of a request body, as far as validation tells values
      apart. An integral number (`Number.isInteger`) carries its value; other
      numbers are `FractionalNumber`; arrays and objects are `Compound`. */
  datatype Value =
    | Null
    | Bool(b: bool)
    | IntNumber(n: int)
    | FractionalNumber
    | Str(s: string)
    | Compound

  /** JavaScript truthiness of a value; an absent property is `undefined`,
      which is falsy. A fractional number is never zero, so it is truthy. */
  predicate Truthy(v: Option<Value>) {
    match v
    case None => false
    case Some(Null) => false
    case Some(Bool(b)) => b
    case Some(IntNumber(n)) => n != 0
    case Some(FractionalNumber) => true
    case Some(Str(s)) => s != ""
    case Some(Compound) => true
  }

  /** The three properties of a creation request; `None` means the property
      is absent (`undefined`), which differs from a JSON `null`. */
  datatype PasteRequest = PasteRequest(
    content: Option<Value>,
    ttlSeconds: Option<Value>,
    maxViews: Option<Value>)

  /** A request that passed validation. */
  datatype PasteInput = PasteInput(
    content: string,
    ttlSeconds: Option<int>,
    maxViews: Option<int>)

  datatype ValidationError = ContentInvalid | TtlInvalid | MaxViewsInvalid {
    /** The error text returned to the client. */
    function Message(): string {
      match this
      case ContentInvalid => "content is required and must be a non-empty string"
      case TtlInvalid => "ttl_seconds must be an integer >= 1"
      case MaxViewsInvalid => "max_views must be an integer >= 1"
    }
  }

  /** Acceptable content: a string with at least one character that is not
      white space. */
  predicate IsNonBlankText(v: Option<Value>) {
    v.Some? && v.value.Str? && exists i :: 0 <= i < |v.value.s| && !IsWhitespace(v.value.s[i])
  }

  /** An optional count is acceptable when absent, or an integer >= 1. */
  predicate IsAbsentOrPositiveInteger(v: Option<Value>) {
    v.None? || (v.value.IntNumber? && v.value.n >= 1)
  }

  /** The integer a validated optional count carries. */
  function CountOf(v: Option<Value>): (count: Option<int>)
    requires IsAbsentOrPositiveInteger(v)
    ensures count.None? <==> v.None?
    ensures count.Some? ==> v == Some(IntNumber(count.value)) && count.value >= 1
  {
    match v
    case None => None
    case Some(x) => Some(x.n)
  }

  /** Validation of a creation request. Content is checked first, then
      `ttl_seconds`, then `max_views`; the first failure is the result. On
      success the content is returned untrimmed and the counts pass through,
      absent ones staying absent. */
  function ValidatePasteInput(input: PasteRequest): (r: Result<PasteInput, ValidationError>)
    ensures r == Failure(ContentInvalid) <==> !IsNonBlankText(input.content)
    ensures r == Failure(TtlInvalid) <==>
              IsNonBlankText(input.content) && !IsAbsentOrPositiveInteger(input.ttlSeconds)
    ensures r == Failure(MaxViewsInvalid) <==>
              && IsNonBlankText(input.content)
              && IsAbsentOrPositiveInteger(input.ttlSeconds)
              && !IsAbsentOrPositiveInteger(input.maxViews)
    ensures r.Success? ==>
              && input.content == Some(Str(r.value.content))
              && (r.value.ttlSeconds.None? <==> input.ttlSeconds.None?)
              && (r.value.ttlSeconds.Some? ==> input.ttlSeconds == Some(IntNumber(r.value.ttlSeconds.value)))
              && (r.value.maxViews.None? <==> input.maxViews.None?)
              && (r.value.maxViews.Some? ==> input.maxViews == Some(IntNumber(r.value.maxViews.value)))
  {
    if !Truthy(input.content) || !input.content.value.Str? || Trim(input.content.value.s) == [] then
      Failure(ContentInvalid)
    else if input.ttlSeconds.Some? && !(input.ttlSeconds.value.IntNumber? && input.ttlSeconds.value.n >= 1) then
      Failure(TtlInvalid)
    else if input.maxViews.Some? && !(input.maxViews.value.IntNumber? && input.maxViews.value.n >= 1) then
      Failure(MaxViewsInvalid)
    else
      Success(PasteInput(input.content.value.s, CountOf(input.ttlSeconds), CountOf(input.maxViews)))
  }

  /** Validated counts are positive, so a paste stored from a validated
      request keeps the invariants of its record: TTL and view limit, when
      present, are at least 1. */
  lemma ValidatedCountsArePositive(input: PasteRequest)
    requires ValidatePasteInput(input).Success?
    ensures ValidatePasteInput(input).value.ttlSeconds.Some? ==> ValidatePasteInput(input).value.ttlSeconds.value >= 1
    ensures ValidatePasteInput(input).value.maxViews.Some? ==> ValidatePasteInput(input).value.maxViews.value >= 1
    ensures ValidatePasteInput(input).value.content != []
  {
  }
}
