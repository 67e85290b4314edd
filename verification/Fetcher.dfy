/**
 * Three-tier change detection: md5 sidecar, conditional GET, sha256 of the body.
 */
module Fetcher {
  import opened Prelude
  import opened Database
  import opened RetryPolicy
  import opened Download

  datatype Source = Source(rir: string, tier: string, format: Format, url: Url, md5Url: Option<string>)

  /** `PreviousFetchState`: the validators read back from `sync_file`. */
  datatype Previous = Previous(md5: Option<Digest>, etag: Option<string>, lastModified: Option<string>, sha256: Option<Digest>)

  datatype FetchResult = FetchResult(
    status: FetchStatus, url: Url, localPath: Option<Url>, size: Option<nat>, sha256: Option<Digest>,
    etag: Option<string>, lastModified: Option<string>, md5Sidecar: Option<Digest>,
    error: Option<FetchError>, tierUsed: Option<nat>)

  /** The settings and library functions a run uses: the hash, HTTP-date conversion and `http_retries`. */
  datatype Env = Env(
    sha256: Bytes -> Digest, parseDate: string -> Option<int>, formatDate: int -> string, httpRetries: int)

  /**
   * What one fetch meets. The main script may depend on the conditional headers sent. A sidecar
   * reply carries the digest found in its text, if any.
   */
  datatype Server = Server(sidecar: nat -> Event<Option<Digest>>, main: Headers -> nat -> Event<Response>)

  // ---------------------------------------------------------------- tier 1

  datatype Sidecar = NotAsked | Missing | Found(md5: Digest) | SidecarFailed(error: FetchError) {
    function Md5(): Option<Digest> {
      if Found? then Some(md5) else None
    }
  }

  function SidecarOf(outcome: Outcome<Option<Digest>>): Sidecar {
    match outcome
    case GaveUp(error) => if error.StatusCode() == Some(404) then Missing else SidecarFailed(error)
    case Got(NetworkFailure) => SidecarFailed(Unparsable)
    case Got(Reply(_, _, digest)) => if digest.Some? then Found(digest.value) else SidecarFailed(Unparsable)
  }

  function AskSidecar(env: Env, source: Source, server: Server): Sidecar {
    if Truthy(source.md5Url) then SidecarOf(Policy(server.sidecar, env.httpRetries).outcome) else NotAsked
  }

  predicate Tier1Closes(previous: Option<Previous>, sidecar: Sidecar) {
    sidecar.Found? && previous.Some? && previous.value.md5 == Some(sidecar.md5)
  }

  // ---------------------------------------------------------------- tiers 2 and 3

  function HeadersFor(previous: Option<Previous>): Headers {
    if previous.None? then Headers(None, None)
    else Headers(
      if Truthy(previous.value.etag) then previous.value.etag else None,
      if Truthy(previous.value.lastModified) then previous.value.lastModified else None)
  }

  /** `fresh or old`: the header if it is not empty, else what was known. */
  function OrElse(sent: Option<string>, kept: Option<string>): Option<string> {
    if Truthy(sent) then sent else kept
  }

  function Known(previous: Option<Previous>, field: Previous -> Option<string>): Option<string> {
    if previous.Some? then field(previous.value) else None
  }

  function StatusOf(previous: Option<Previous>, sha256: Digest): FetchStatus {
    if previous.Some? && previous.value.sha256 == Some(sha256) then Unchanged
    else if previous.None? then New
    else Updated
  }

  function ResultOfGet(source: Source, previous: Option<Previous>, md5: Option<Digest>, got: GetOutcome): FetchResult {
    match got
    case NotModified(etag, lastModified) =>
      FetchResult(Unchanged, source.url, None, None, None,
                  OrElse(etag, Known(previous, (p: Previous) => p.etag)),
                  OrElse(lastModified, Known(previous, (p: Previous) => p.lastModified)),
                  md5, None, Some(2))
    case Downloaded(size, sha256, etag, lastModified) =>
      FetchResult(StatusOf(previous, sha256), source.url, Some(source.url), Some(size), Some(sha256),
                  etag, lastModified, md5, None, Some(3))
    case GetFailed(error) => ErrorResult(source, md5, error)
  }

  function ErrorResult(source: Source, md5: Option<Digest>, error: FetchError): FetchResult {
    FetchResult(Error, source.url, None, None, None, None, None, md5, Some(error), None)
  }

  function MainTrace(env: Env, previous: Option<Previous>, server: Server): Trace<Response> {
    GetTrace(server.main(HeadersFor(previous)), env.httpRetries)
  }

  /** The outcome of `fetch`, as a function of what the server does. */
  function FetchOf(env: Env, source: Source, previous: Option<Previous>, server: Server): FetchResult {
    var sidecar := AskSidecar(env, source, server);
    if sidecar.SidecarFailed? then ErrorResult(source, None, sidecar.error)
    else if Tier1Closes(previous, sidecar) then
      FetchResult(Unchanged, source.url, None, None, None, None, None, sidecar.Md5(), None, Some(1))
    else
      ResultOfGet(source, previous, sidecar.Md5(), GetOutcomeOf(MainTrace(env, previous, server).outcome, env.sha256))
  }

  /** The body this fetch puts into the cache directory, if any. */
  function FetchedBody(env: Env, source: Source, previous: Option<Previous>, server: Server): Option<Bytes> {
    var sidecar := AskSidecar(env, source, server);
    if sidecar.SidecarFailed? || Tier1Closes(previous, sidecar) then None
    else BodyOf(MainTrace(env, previous, server).outcome)
  }

  method FetchMd5Sidecar(env: Env, source: Source, server: Server) returns (sidecar: Sidecar)
    requires Truthy(source.md5Url)
    ensures sidecar == AskSidecar(env, source, server)
  {
    var outcome, _, _ := RetryRequest(server.sidecar, env.httpRetries);
    if outcome.GaveUp? {
      if outcome.error.StatusCode() == Some(404) {
        return Missing;
      }
      return SidecarFailed(outcome.error);
    }
    if outcome.reply.Reply? && outcome.reply.content.Some? {
      return Found(outcome.reply.content.value);
    }
    return SidecarFailed(Unparsable);
  }

  method Fetch(dir: CacheDir, env: Env, source: Source, previous: Option<Previous>, server: Server)
    returns (result: FetchResult)
    modifies dir
    ensures result == FetchOf(env, source, previous, server)
    ensures var body := FetchedBody(env, source, previous, server);
            && dir.target == (if body.Some? then old(dir.target)[source.url := body.value] else old(dir.target))
            && OnlyOldOrNew(old(dir.history), dir.history, old(dir.target), dir.target)
  {
    var md5Sidecar: Option<Digest> := None;
    if Truthy(source.md5Url) {
      var sidecar := FetchMd5Sidecar(env, source, server);
      if sidecar.SidecarFailed? {
        return ErrorResult(source, None, sidecar.error);
      }
      md5Sidecar := sidecar.Md5();
      if md5Sidecar.Some? && previous.Some? && previous.value.md5 == md5Sidecar {
        return FetchResult(Unchanged, source.url, None, None, None, None, None, md5Sidecar, None, Some(1));
      }
    }
    var outcome, requests, sleeps :=
      ConditionalGet(dir, source.url, server.main(HeadersFor(previous)), env.sha256, env.httpRetries);
    return ResultOfGet(source, previous, md5Sidecar, outcome);
  }

  // ---------------------------------------------------------------- what a result tells about the body

  /** A result of tier 3 is about the body just written; the other results wrote none. */
  lemma ResultDescribesBody(env: Env, source: Source, previous: Option<Previous>, server: Server)
    ensures var r, body := FetchOf(env, source, previous, server), FetchedBody(env, source, previous, server);
            && (r.tierUsed == Some(3) <==> body.Some?)
            && (r.localPath.Some? <==> body.Some?)
            && (body.Some? ==> r.sha256 == Some(env.sha256(body.value)) && r.size == Some(|body.value|))
            && (body.None? ==> r.sha256.None? && r.size.None? && r.status in {Unchanged, Error})
            && (r.status == Error <==> r.tierUsed.None?)
            && (r.status == New <==> body.Some? && previous.None?)
            && (r.status == Updated <==> body.Some? && previous.Some? && previous.value.sha256 != r.sha256)
  {
    var t := MainTrace(env, previous, server);
    if t.outcome.Got? {
      GotIsReply(SettledScript(server.main(HeadersFor(previous))), env.httpRetries);
    }
  }

  lemma GotIsReply<T>(script: nat -> Event<T>, httpRetries: int)
    requires Policy(script, httpRetries).outcome.Got?
    ensures Policy(script, httpRetries).outcome.reply.Reply?
  {
    var k := AcceptedReplyIsScripted(script, httpRetries, 0, NoAttempts);
  }

  // ---------------------------------------------------------------- tier by tier

  /** The sidecar is asked when the source names one; only a 404 counts as missing, and no digest is an error. */
  lemma SidecarByAnswer(env: Env, source: Source, server: Server)
    ensures var o := Policy(server.sidecar, env.httpRetries).outcome;
            AskSidecar(env, source, server) ==
              if source.md5Url.None? || source.md5Url.value == "" then NotAsked
              else if o == GaveUp(Refused(404)) then Missing
              else if o.GaveUp? then SidecarFailed(o.error)
              else if o.reply.Reply? && o.reply.content.Some? then Found(o.reply.content.value)
              else SidecarFailed(Unparsable)
  {
    RunOutStatusIsRetried(server.sidecar, env.httpRetries, 0, NoAttempts);
  }

  /** A failed sidecar ends the fetch; the digest that the row remembers ends it at tier 1. */
  lemma FetchClosesAtTheSidecar(env: Env, source: Source, previous: Option<Previous>, server: Server)
    ensures var s, r := AskSidecar(env, source, server), FetchOf(env, source, previous, server);
            && (s.SidecarFailed? ==>
                  && r == FetchResult(Error, source.url, None, None, None, None, None, None, Some(s.error), None)
                  && FetchedBody(env, source, previous, server) == None)
            && (s.Found? && previous.Some? && previous.value.md5 == Some(s.md5) ==>
                  && r == FetchResult(Unchanged, source.url, None, None, None, None, None, Some(s.md5), None, Some(1))
                  && FetchedBody(env, source, previous, server) == None)
  {
  }

  /**
   * Any other fetch makes the GET, with the remembered validators that are not empty. A 304 keeps the
   * validators it does not replace; a body is compared by its hash.
   */
  lemma FetchMakesTheGet(env: Env, source: Source, previous: Option<Previous>, server: Server)
    requires var s := AskSidecar(env, source, server);
             !s.SidecarFailed? && !(s.Found? && previous.Some? && previous.value.md5 == Some(s.md5))
    ensures var s, r := AskSidecar(env, source, server), FetchOf(env, source, previous, server);
            var digest := if s.Found? then Some(s.md5) else None;
            var h := if previous.None? then Headers(None, None) else Headers(
              if previous.value.etag == Some("") then None else previous.value.etag,
              if previous.value.lastModified == Some("") then None else previous.value.lastModified);
            var o := GetTrace(server.main(h), env.httpRetries).outcome;
            && (o.GaveUp? ==>
                  && r == FetchResult(Error, source.url, None, None, None, None, None, digest, Some(o.error), None)
                  && FetchedBody(env, source, previous, server) == None)
            && (o.Got? && o.reply.Reply? && o.reply.status == 304 ==>
                  var sent := o.reply.content;
                  && r.status == Unchanged && r.tierUsed == Some(2) && r.url == source.url && r.error == None
                  && r.sha256 == None && r.size == None && r.localPath == None && r.md5Sidecar == digest
                  && r.etag == (if sent.etag.Some? && sent.etag.value != "" then sent.etag
                                else if previous.Some? then previous.value.etag else None)
                  && r.lastModified == (if sent.lastModified.Some? && sent.lastModified.value != "" then sent.lastModified
                                        else if previous.Some? then previous.value.lastModified else None)
                  && FetchedBody(env, source, previous, server) == None)
            && (o.Got? && o.reply.Reply? && o.reply.status != 304 ==>
                  var sent, body := o.reply.content, Concat(o.reply.content.chunks);
                  && FetchedBody(env, source, previous, server) == Some(body)
                  && r == FetchResult(
                       if previous.None? then New
                       else if previous.value.sha256 == Some(env.sha256(body)) then Unchanged else Updated,
                       source.url, Some(source.url), Some(|body|), Some(env.sha256(body)),
                       sent.etag, sent.lastModified, digest, None, Some(3)))
            && (o.Got? ==> o.reply.Reply?)
  {
    var t := MainTrace(env, previous, server);
    if t.outcome.Got? {
      GotIsReply(SettledScript(server.main(HeadersFor(previous))), env.httpRetries);
    }
    hide Policy, AskSidecar;
  }
}
