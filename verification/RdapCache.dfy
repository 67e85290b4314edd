/**
 * RDAP lookups through the `rdap_cache` table: hits, positive and negative entries, expiry, clean-up.
 * Times are seconds since 1970 on one clock that never runs backwards.
 */
module RdapCache {
  import opened Prelude
  import opened Decimal

  /** A JSON object, flattened to its texts. */
  type Json = map<string, string>

  datatype Entry = Entry(raw: Json, normalized: Json, fetchedAt: int, expiresAt: int, httpStatus: int, error: Option<string>)

  type Entries = map<string, Entry>

  datatype RetryAfter = NoHeader | Seconds(s: int) | Unreadable

  /** What the HTTP request meets. `Crash` is any exception that the lookup does not catch. */
  datatype Reply = NetworkError(message: string) | Crash | Response(status: int, body: Option<Json>, retryAfter: RetryAfter)

  datatype Normal = Normal(value: Json) | Fails(message: string)

  datatype Settings = Settings(ttl: nat, negativeTtl: nat)

  datatype RdapResult = RdapResult(
    found: bool, normalized: Option<Json>, raw: Option<Json>, error: Option<string>, cached: bool, httpStatus: int)

  datatype Outcome = Raised | Returned(result: RdapResult)

  /** A lookup: when the cache is read, when the answer would be stored, and the reply a request would meet. */
  datatype Look = Look(key: string, now: int, storedAt: int, reply: Reply)

  datatype Looked = Looked(entries: Entries, outcome: Outcome, requests: nat)

  const WEEK := 7 * 24 * 3600

  function StatusText(status: int): string {
    "HTTP " + StrInt(status)
  }

  // ---------------------------------------------------------------- times that do not fit

  /** The end of the year 9999, the last instant a `datetime` can hold. */
  const LAST_INSTANT := 253402300799

  const DAY := 24 * 3600

  /** A `timedelta` holds less than 10^9 days either way. */
  predicate FitsTimedelta(seconds: int) {
    -999_999_999 * DAY <= seconds < 1_000_000_000 * DAY
  }

  // ---------------------------------------------------------------- _lookup

  predicate Hits(entries: Entries, look: Look) {
    look.key in entries && entries[look.key].expiresAt > look.now
  }

  /** A cached row read back: an empty object counts as none. */
  function FromEntry(e: Entry): RdapResult {
    var found := e.normalized != map[] && e.httpStatus == 200;
    RdapResult(found, if found then Some(e.normalized) else None, None, e.error, true, e.httpStatus)
  }

  function Max(a: int, b: int): int {
    if a >= b then a else b
  }

  /** The life of a negative entry; None when the Retry-After of a 429 overflows. */
  function NegativeTtl(settings: Settings, status: int, retryAfter: RetryAfter): Option<int> {
    if status != 429 || !retryAfter.Seconds? then Some(settings.negativeTtl)
    else if !FitsTimedelta(retryAfter.s) then None
    else Some(Max(settings.negativeTtl, retryAfter.s))
  }

  /** `_store_cache` raises when the expiry is beyond the calendar. */
  predicate Storable(now: int, ttl: int) {
    now + ttl <= LAST_INSTANT
  }

  function LookupOf(settings: Settings, normalizer: Json -> Normal, entries: Entries, look: Look): Looked {
    if Hits(entries, look) then Looked(entries, Returned(FromEntry(entries[look.key])), 0)
    else
      match look.reply
      case NetworkError(message) => Looked(entries, Returned(RdapResult(false, None, None, Some(message), false, 0)), 1)
      case Crash => Looked(entries, Raised, 1)
      case Response(status, body, retryAfter) =>
        if status == 200 then
          if body.None? then Looked(entries, Raised, 1)
          else
            match normalizer(body.value)
            case Fails(message) =>
              Looked(entries, Returned(RdapResult(false, None, body, Some("normalize: " + message), false, 200)), 1)
            case Normal(value) =>
              if !Storable(look.storedAt, settings.ttl) then Looked(entries, Raised, 1)
              else Looked(entries[look.key := Entry(body.value, value, look.storedAt, look.storedAt + settings.ttl, 200, None)],
                     Returned(RdapResult(true, Some(value), body, None, false, 200)), 1)
        else
          var error, ttl := Some(StatusText(status)), NegativeTtl(settings, status, retryAfter);
          if ttl.None? || !Storable(look.storedAt, ttl.value) then Looked(entries, Raised, 1)
          else
            Looked(entries[look.key := Entry(map[], map[], look.storedAt, look.storedAt + ttl.value, status, error)],
                   Returned(RdapResult(false, None, None, error, false, status)), 1)
  }

  /** The `rdap_cache` table. */
  class Cache {
    var entries: Entries

    constructor ()
      ensures entries == map[]
    {
      entries := map[];
    }

    /** `_store_cache` */
    method Store(key: string, raw: Json, normalized: Json, now: int, ttl: int, status: int, error: Option<string>)
      returns (ok: bool)
      modifies this
      ensures ok == Storable(now, ttl)
      ensures entries == if ok then old(entries)[key := Entry(raw, normalized, now, now + ttl, status, error)] else old(entries)
    {
      ok := now + ttl <= LAST_INSTANT;
      if ok {
        entries := entries[key := Entry(raw, normalized, now, now + ttl, status, error)];
      }
    }

    /** `_lookup` */
    method Lookup(settings: Settings, normalizer: Json -> Normal, look: Look) returns (outcome: Outcome, requests: nat)
      modifies this
      ensures Looked(entries, outcome, requests) == LookupOf(settings, normalizer, old(entries), look)
    {
      requests := 0;
      if look.key in entries && entries[look.key].expiresAt > look.now {
        var row := entries[look.key];
        var normDict: Option<Json> := None;
        if row.normalized != map[] {
          normDict := Some(row.normalized);
        }
        var found := normDict.Some? && row.httpStatus == 200;
        return Returned(RdapResult(found, if found then normDict else None, None, row.error, true, row.httpStatus)), requests;
      }
      requests := 1;
      if look.reply.Crash? {
        return Raised, requests;
      }
      if look.reply.NetworkError? {
        return Returned(RdapResult(false, None, None, Some(look.reply.message), false, 0)), requests;
      }
      var response := look.reply;
      if response.status == 200 {
        if response.body.None? {
          return Raised, requests;
        }
        var raw := response.body.value;
        var normalized := normalizer(raw);
        if normalized.Fails? {
          return Returned(RdapResult(false, None, Some(raw), Some("normalize: " + normalized.message), false, 200)), requests;
        }
        var stored := Store(look.key, raw, normalized.value, look.storedAt, settings.ttl, 200, None);
        if !stored {
          return Raised, requests;
        }
        return Returned(RdapResult(true, Some(normalized.value), Some(raw), None, false, 200)), requests;
      }
      var ttl: int := settings.negativeTtl;
      var error := StatusText(response.status);
      if response.status == 429 && response.retryAfter.Seconds? {
        if !FitsTimedelta(response.retryAfter.s) {
          return Raised, requests;
        }
        ttl := Max(ttl, response.retryAfter.s);
      }
      var stored := Store(look.key, map[], map[], look.storedAt, ttl, response.status, Some(error));
      if !stored {
        return Raised, requests;
      }
      return Returned(RdapResult(false, None, None, Some(error), false, response.status)), requests;
    }
  }

  /** The clean-up in GC: entries that expired more than a week ago. */
  function Cleaned(entries: Entries, now: int): Entries {
    map k | k in entries && entries[k].expiresAt >= now - WEEK :: entries[k]
  }

  // ---------------------------------------------------------------- single lookups

  /** Did this lookup store an entry? */
  predicate Stores(settings: Settings, normalizer: Json -> Normal, entries: Entries, look: Look) {
    && !Hits(entries, look) && look.reply.Response?
    && (look.reply.status == 200 ==>
          look.reply.body.Some? && normalizer(look.reply.body.value).Normal? && Storable(look.storedAt, settings.ttl))
    && (look.reply.status != 200 ==>
          var ttl := NegativeTtl(settings, look.reply.status, look.reply.retryAfter);
          ttl.Some? && Storable(look.storedAt, ttl.value))
  }

  /**
   * A failed request, a failed normalisation and an expiry beyond the calendar leave the cache as it
   * was; every other request stores one entry. Nothing else raises.
   */
  lemma FailuresAreNotCached(settings: Settings, normalizer: Json -> Normal, entries: Entries, look: Look)
    requires !Hits(entries, look)
    ensures var after := LookupOf(settings, normalizer, entries, look);
            && (!Stores(settings, normalizer, entries, look) ==> after.entries == entries)
            && (Stores(settings, normalizer, entries, look) ==>
                  && after.outcome.Returned? && look.key in after.entries
                  && after.entries[look.key].httpStatus == look.reply.status
                  && after.entries == entries[look.key := after.entries[look.key]])
            && (after.outcome.Raised? ==>
                  look.reply.Crash? ||
                  (look.reply.Response? &&
                   if look.reply.status == 200
                   then look.reply.body.None? || !Storable(look.storedAt, settings.ttl)
                   else !Stores(settings, normalizer, entries, look)))
  {
  }

  /**
   * A 429 is remembered for the default and for as long as Retry-After asks, whichever is longer.
   * Exactly when that is beyond the calendar the lookup raises, and nothing is remembered.
   */
  lemma RateLimitIsHonoured(settings: Settings, normalizer: Json -> Normal, entries: Entries, look: Look)
    requires !Hits(entries, look) && look.reply.Response? && look.reply.status == 429
    requires 0 <= look.storedAt
    ensures var after, asked := LookupOf(settings, normalizer, entries, look), look.reply.retryAfter;
            && (after.outcome.Raised? <==>
                  || look.storedAt + settings.negativeTtl > 253402300799
                  || (asked.Seconds? && (look.storedAt + asked.s > 253402300799 || asked.s < -999_999_999 * 86400)))
            && (after.outcome.Raised? ==> after.entries == entries)
            && (after.outcome.Returned? ==>
                  && look.key in after.entries
                  && after.entries[look.key].expiresAt >= look.storedAt + settings.negativeTtl
                  && (asked.Seconds? ==> after.entries[look.key].expiresAt >= look.storedAt + asked.s))
  {
  }

  predicate SameAnswer(a: RdapResult, b: RdapResult) {
    a.found == b.found && a.normalized == b.normalized && a.httpStatus == b.httpStatus && a.error == b.error
  }

  /** The stored entry repeats the answer, except for a normalised object that is empty. */
  lemma EntryRepeatsAnswerIff(settings: Settings, normalizer: Json -> Normal, entries: Entries, look: Look)
    requires Stores(settings, normalizer, entries, look)
    ensures var after := LookupOf(settings, normalizer, entries, look);
            && look.key in after.entries && after.outcome.Returned?
            && (SameAnswer(FromEntry(after.entries[look.key]), after.outcome.result)
                <==> after.outcome.result.normalized != Some(map[]))
  {
  }

  /** An entry is used while it lives, without a request; without one there is exactly one request. */
  lemma OneRequestUnlessCached(settings: Settings, normalizer: Json -> Normal, entries: Entries, look: Look)
    ensures var after := LookupOf(settings, normalizer, entries, look);
            if look.key in entries && look.now < entries[look.key].expiresAt
            then
              && after.requests == 0 && after.entries == entries && after.outcome.Returned?
              && var e, r := entries[look.key], after.outcome.result;
                 && r.cached && r.httpStatus == e.httpStatus && r.error == e.error && r.raw == None
                 && (r.found <==> e.httpStatus == 200 && e.normalized != map[])
                 && r.normalized == (if r.found then Some(e.normalized) else None)
            else after.requests == 1 && (after.outcome.Returned? ==> !after.outcome.result.cached)
  {
  }

  /**
   * What a request stores and answers, reply by reply: a normalised 200 for `ttl`, a 429 for the longer
   * of `negativeTtl` and Retry-After, any other status for `negativeTtl`.
   */
  lemma StoredByStatus(settings: Settings, normalizer: Json -> Normal, entries: Entries, look: Look)
    requires !(look.key in entries && look.now < entries[look.key].expiresAt) && look.reply.Response?
    ensures var after, reply := LookupOf(settings, normalizer, entries, look), look.reply;
            after.outcome.Returned? ==>
              var r := after.outcome.result;
              && r.httpStatus == reply.status
              && (reply.status == 200 && reply.body.Some? && normalizer(reply.body.value).Normal? ==>
                    var value := normalizer(reply.body.value).value;
                    && r == RdapResult(true, Some(value), reply.body, None, false, 200)
                    && after.entries == entries[look.key :=
                         Entry(reply.body.value, value, look.storedAt, look.storedAt + settings.ttl, 200, None)])
              && (reply.status == 200 && reply.body.Some? && normalizer(reply.body.value).Fails? ==>
                    && after.entries == entries && !r.found && r.normalized == None && r.raw == reply.body
                    && r.error == Some("normalize: " + normalizer(reply.body.value).message))
              && (reply.status != 200 ==>
                    var life := if reply.status == 429 && reply.retryAfter.Seconds? && reply.retryAfter.s > settings.negativeTtl
                                then reply.retryAfter.s else settings.negativeTtl;
                    && r == RdapResult(false, None, None, Some("HTTP " + StrInt(reply.status)), false, reply.status)
                    && after.entries == entries[look.key :=
                         Entry(map[], map[], look.storedAt, look.storedAt + life, reply.status, r.error)])
  {
    hide StrInt;
  }

  /** A request that fails answers with its error and status 0. */
  lemma NetworkErrorIsReported(settings: Settings, normalizer: Json -> Normal, entries: Entries, look: Look)
    requires !(look.key in entries && look.now < entries[look.key].expiresAt) && look.reply.NetworkError?
    ensures LookupOf(settings, normalizer, entries, look)
         == Looked(entries, Returned(RdapResult(false, None, None, Some(look.reply.message), false, 0)), 1)
  {
  }

  // ---------------------------------------------------------------- sequences of lookups

  datatype Event = Lookup(look: Look) | CleanUp(at: int)

  function Time(e: Event): int {
    match e
    case Lookup(look) => look.now
    case CleanUp(at) => at
  }

  function Step(settings: Settings, normalizer: Json -> Normal, entries: Entries, e: Event): Entries {
    match e
    case Lookup(look) => LookupOf(settings, normalizer, entries, look).entries
    case CleanUp(at) => Cleaned(entries, at)
  }

  function Steps(settings: Settings, normalizer: Json -> Normal, entries: Entries, events: seq<Event>): Entries {
    if events == [] then entries
    else Step(settings, normalizer, Steps(settings, normalizer, entries, events[..|events| - 1]), events[|events| - 1])
  }

  lemma {:induction false} EntrySurvivesUntilExpiry(
    settings: Settings, normalizer: Json -> Normal, entries: Entries, events: seq<Event>, key: string)
    requires key in entries && forall i :: 0 <= i < |events| ==> Time(events[i]) < entries[key].expiresAt
    ensures var after := Steps(settings, normalizer, entries, events);
            key in after && after[key] == entries[key]
  {
    if events != [] {
      EntrySurvivesUntilExpiry(settings, normalizer, entries, events[..|events| - 1], key);
      assert Time(events[|events| - 1]) < entries[key].expiresAt;
    }
  }

  ghost predicate ClockRuns(events: seq<Event>) {
    forall i, j :: 0 <= i < j < |events| ==> Time(events[i]) <= Time(events[j])
  }

  /**
   * Once a response is stored, every lookup of that key before its expiry makes no request and gives
   * the same answer, whatever other lookups and clean-ups happen in between.
   */
  lemma CachedUntilExpiry(
    settings: Settings, normalizer: Json -> Normal, entries: Entries, first: Look, between: seq<Event>, again: Look)
    requires Stores(settings, normalizer, entries, first)
    requires forall raw :: normalizer(raw).Normal? ==> normalizer(raw).value != map[]
    requires again.key == first.key && ClockRuns(between + [Lookup(again)])
    requires var stored := LookupOf(settings, normalizer, entries, first).entries;
             again.now < stored[first.key].expiresAt
    ensures var start := LookupOf(settings, normalizer, entries, first);
            var later := LookupOf(settings, normalizer, Steps(settings, normalizer, start.entries, between), again);
            && later.requests == 0
            && start.outcome.Returned? && later.outcome.Returned?
            && later.outcome.result.cached && SameAnswer(later.outcome.result, start.outcome.result)
  {
    var start := LookupOf(settings, normalizer, entries, first);
    var all := between + [Lookup(again)];
    forall i | 0 <= i < |between|
      ensures Time(between[i]) < start.entries[first.key].expiresAt
    {
      assert all[i] == between[i] && all[|between|] == Lookup(again);
    }
    EntrySurvivesUntilExpiry(settings, normalizer, start.entries, between, first.key);
    EntryRepeatsAnswerIff(settings, normalizer, entries, first);
  }
}
