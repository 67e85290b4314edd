/** Concrete servers and visits, and what one visit to them does. */
module Scenarios {
  import opened Prelude
  import opened Tables
  import opened Database
  import opened RetryPolicy
  import opened Download
  import opened Fetcher
  import opened SyncState
  import opened Orchestrator

  function Ok(etag: Option<string>, body: Bytes): Event<Response> {
    Reply(200, NoHeader, Response(etag, None, [body], false))
  }

  const NOT_MODIFIED: Event<Response> := Reply(304, NoHeader, Response(None, None, [], false))

  const NO_SIDECAR: Event<Option<Digest>> := Reply(404, NoHeader, None)

  /** A server that gives the same answer to every request. */
  function Always(sidecar: Event<Option<Digest>>, main: Event<Response>): Server {
    Server((n: nat) => sidecar, (h: Headers) => (n: nat) => main)
  }

  /** Answers 304 to one entity tag, and the body otherwise. */
  function Conditional(tag: string, body: Bytes): Server {
    Server((n: nat) => NO_SIDECAR,
           (h: Headers) => (n: nat) => if h.ifNoneMatch == Some(tag) then NOT_MODIFIED else Ok(Some(tag), body))
  }

  function SourceWith(md5Url: Option<string>): Source {
    Source("ripencc", "core", Delegated, "u", md5Url)
  }

  /** A visit whose ETL upserts the same rows from every body. */
  function Visiting(source: Source, server: Server, writes: seq<Write>): Visit {
    Visit(source, server, (b: Bytes) => Loads(writes), false, 0)
  }

  lemma ConcatOne(body: Bytes)
    ensures Concat([body]) == body
  {
    assert [body][..0] == [];
    assert [] + body == body;
  }

  /** An answer that is not retried ends the GET at once. */
  lemma FirstAnswerCounts(env: Env, previous: Option<Previous>, server: Server)
    requires env.httpRetries >= 1
    requires var e := server.main(HeadersFor(previous))(0); e.Reply? && e.status < 400 && !e.content.broken
    ensures MainTrace(env, previous, server).outcome == Got(server.main(HeadersFor(previous))(0))
  {
    var script := SettledScript(server.main(HeadersFor(previous)));
    FirstDecisiveAnswerWins(script, env.httpRetries, 0, NoAttempts, 0);
  }

  lemma SidecarAnswers(env: Env, source: Source, server: Server)
    requires env.httpRetries >= 1 && Truthy(source.md5Url)
    requires var e := server.sidecar(0); e.Reply? && (e.status == 404 || (e.status < 400 && e.content.Some?))
    ensures AskSidecar(env, source, server)
         == if server.sidecar(0).status == 404 then Missing else Found(server.sidecar(0).content.value)
  {
    FirstDecisiveAnswerWins(server.sidecar, env.httpRetries, 0, NoAttempts, 0);
  }

  /** A download of a body that is not the recorded one: it is applied, and the row takes what the response carried. */
  lemma DownloadRecorded(env: Env, data: Data, v: Visit, runId: nat, body: Bytes, etag: Option<string>, writes: seq<Write>)
    requires env.httpRetries >= 1 && !v.fault && v.source.format == Delegated && v.load(body) == Loads(writes)
    requires !Tier1Closes(PreviousOf(env, data.files, v.source.url), AskSidecar(env, v.source, v.server))
    requires !AskSidecar(env, v.source, v.server).SidecarFailed?
    requires v.server.main(HeadersFor(PreviousOf(env, data.files, v.source.url)))(0) == Ok(etag, body)
    requires ValidatorsOf(data.files, v.source.url).sha256 != Some(env.sha256(body))
    ensures var visited, u := VisitSource(env, data, v, runId), v.source.url;
            var after := visited.data;
            && visited.outcome == Returned(if u in data.files then Updated else New)
            && RunsEtl(env, data, v) && BodyIn(env, data, v) == Some(body)
            && u in after.applied && after.applied[u] == body && u in after.files
            && after.rows == UpsertAll(data.rows, writes, runId)
            && var kept := ValidatorsOf(data.files, u);
               after.files[u].etag == Coalesce(etag, kept.etag)
               && after.files[u].sha256 == Some(env.sha256(body))
               && after.files[u].md5 == Coalesce(AskSidecar(env, v.source, v.server).Md5(), kept.md5)
  {
    hide Policy, AskSidecar, UpsertAll;
    ConcatOne(body);
    var previous := PreviousOf(env, data.files, v.source.url);
    FirstAnswerCounts(env, previous, v.server);
    ResultDescribesBody(env, v.source, previous, v.server);
  }
}
