/** The decision the fetch handler of src/app/api/pastes/[id]/route.ts takes
    on a looked-up paste: serve it and count one view, or answer "not found".
    Store access and the HTTP response are not modelled; the store is the
    `Option<Paste>` the lookup returned. */
module Fetching {
  import opened Wrappers
  import opened Time
  import opened Pastes

  /** The body of the answer: "not found" for a missing, expired or
      view-exhausted paste alike, or the content with the views left after
      this read and the expiry instant. */
  datatype FetchOutcome =
    | NotFound
    | Served(content: string, remainingViews: Option<int>, expiresAt: Option<int>)

  /** One fetch at `currentTime` of the paste the store holds (`None` when
      the id is unknown). Returns the answer and what the store holds
      afterwards: a served paste has its view count raised by one. */
  function Fetch(stored: Option<Paste>, currentTime: int): (result: (FetchOutcome, Option<Paste>))
    ensures result.0.Served? <==> stored.Some? && IsPasteAvailable(stored.value, currentTime)
    ensures result.0.NotFound? ==> result.1 == stored
    ensures result.0.Served? ==>
              && result.1 == Some(stored.value.(viewCount := stored.value.viewCount + 1))
              && result.0.content == stored.value.content
              && result.0.expiresAt == GetExpiryTimestamp(stored.value.createdAt, stored.value.ttlSeconds)
  {
    match stored
    case None => (NotFound, None)
    case Some(paste) =>
      if !IsPasteAvailable(paste, currentTime) then (NotFound, stored)
      else
        var updatedViewCount := paste.viewCount + 1;
        var remainingViews :=
          match paste.maxViews
          case Some(maxViews) => Some(if maxViews - updatedViewCount < 0 then 0 else maxViews - updatedViewCount)
          case None => None;
        var expiresAt := GetExpiryTimestamp(paste.createdAt, paste.ttlSeconds);
        (Served(paste.content, remainingViews, expiresAt), Some(paste.(viewCount := updatedViewCount)))
  }

  /** The remaining views a served answer reports are those of the stored
      paste after this read: `maxViews - viewCount - 1`, never negative. */
  lemma ServedRemainingViewsCountThisRead(stored: Option<Paste>, currentTime: int)
    requires Fetch(stored, currentTime).0.Served?
    ensures Fetch(stored, currentTime).0.remainingViews == GetRemainingViews(Fetch(stored, currentTime).1.value)
    ensures stored.value.maxViews.Some? ==>
              Fetch(stored, currentTime).0.remainingViews
              == Some(stored.value.maxViews.value - stored.value.viewCount - 1)
  {
    AvailableIffWithinLimits(stored.value, currentTime);
  }

  /** A run of fetches of one paste at the given instants, in order: how many
      were served, and the paste afterwards. */
  function FetchAll(paste: Paste, times: seq<int>): (result: (nat, Paste))
    ensures result.0 <= |times|
    ensures result.1 == paste.(viewCount := paste.viewCount + result.0)
    decreases |times|
  {
    if times == [] then (0, paste)
    else
      var (outcome, after) := Fetch(Some(paste), times[0]);
      var (served, final) := FetchAll(after.value, times[1..]);
      (if outcome.Served? then served + 1 else served, final)
  }

  function Min(a: int, b: int): int { if a < b then a else b }
  function Max(a: int, b: int): int { if a < b then b else a }

  /** Sequential fetches never serve a paste more often than its view limit
      allows. */
  lemma {:induction false} ViewLimitBoundsServedFetches(paste: Paste, times: seq<int>)
    requires paste.maxViews.Some?
    ensures FetchAll(paste, times).0 <= Max(0, paste.maxViews.value - paste.viewCount)
    decreases |times|
  {
    if times != [] {
      var after := Fetch(Some(paste), times[0]).1.value;
      ViewLimitBoundsServedFetches(after, times[1..]);
      if !IsPasteAvailable(paste, times[0]) && !ViewsExhausted(paste) {
        assert after == paste;
      }
    }
  }

  /** Without a TTL, sequential fetches of a paste with a view limit serve
      exactly as many as the views left, and refuse the rest. */
  lemma {:induction false} ViewLimitServesExactly(paste: Paste, times: seq<int>)
    requires paste.maxViews.Some? && paste.ttlSeconds.None?
    ensures FetchAll(paste, times).0 == Min(|times|, Max(0, paste.maxViews.value - paste.viewCount))
    decreases |times|
  {
    if times != [] {
      var after := Fetch(Some(paste), times[0]).1.value;
      ViewLimitServesExactly(after, times[1..]);
    }
  }

  /** A paste limited to one view: the first fetch within its TTL is served
      and reports no views left; the next fetch is refused. */
  lemma SingleViewPasteServedOnce(paste: Paste, first: int, second: int)
    requires paste.maxViews == Some(1) && paste.viewCount == 0
    requires !IsPasteExpired(paste.createdAt, paste.ttlSeconds, first)
    ensures Fetch(Some(paste), first).0.Served?
    ensures Fetch(Some(paste), first).0.remainingViews == Some(0)
    ensures Fetch(Fetch(Some(paste), first).1, second).0 == NotFound
  {
  }

  /** A paste with a TTL is served before its expiry instant (while views
      last) and refused from that instant on. */
  lemma TtlPasteRefusedFromExpiry(paste: Paste, ttl: int, currentTime: int)
    requires paste.ttlSeconds == Some(ttl)
    requires paste.maxViews.None? || paste.viewCount < paste.maxViews.value
    ensures Fetch(Some(paste), currentTime).0.Served? <==> currentTime < paste.createdAt + ttl * 1000
  {
    AvailableIffWithinLimits(paste, currentTime);
  }
}
