/**
 * Three-tier change detection refines "download every time": against a server that keeps to its
 * validators, every visit that neither fails nor raises leaves the server's current body applied.
 */
module Refinement {
  import opened Prelude
  import opened Tables
  import opened Database
  import opened RetryPolicy
  import opened Download
  import opened Fetcher
  import opened SyncState
  import opened Orchestrator
  import opened History
  import opened ChangeDetection

  /**
   * The outside world: the sidecar's hash, the body that an entity tag names (strong validators,
   * section 2.3 of RFC 7232) or a modification date (section 2.2), and the URLs that have a sidecar.
   */
  datatype World = World(md5: Bytes -> Digest, named: string -> Bytes, dated: string -> Bytes, sidecars: set<Url>)

  ghost predicate HashesAreInjective(env: Env, world: World) {
    Injective(env.sha256) && Injective(world.md5)
  }

  /** A present entity tag names `body`. */
  predicate Names(world: World, etag: Option<string>, body: Bytes) {
    Truthy(etag) && world.named(etag.value) == body
  }

  /** A sidecar that answers is there and matches the body. */
  ghost predicate HonestSidecar(world: World, source: Source, server: Server, body: Bytes) {
    && (Truthy(source.md5Url) <==> source.url in world.sidecars)
    && forall n: nat :: Truthy(source.md5Url) && server.sidecar(n).Reply? ==>
         && server.sidecar(n).status != 404
         && (server.sidecar(n).status < 400 ==> server.sidecar(n).content == Some(world.md5(body)))
  }

  /**
   * A 200 carries the current body and its entity tag. A 304 is sent only when the tag in
   * If-None-Match names the current body (sections 3.2, 3.3 and 4.1 of RFC 7232).
   */
  ghost predicate HonestReply(world: World, h: Headers, e: Event<Response>, body: Bytes) {
    e.Reply? && e.status < 400 ==>
      if e.status == 304
      then Names(world, h.ifNoneMatch, body) && (Truthy(e.content.etag) ==> Names(world, e.content.etag, body))
      else !e.content.broken ==> Concat(e.content.chunks) == body && Names(world, e.content.etag, body)
  }

  ghost predicate Honest(world: World, v: Visit, body: Bytes) {
    && v.source.format != Format.Md5
    && HonestSidecar(world, v.source, v.server, body)
    && forall h: Headers, n: nat :: HonestReply(world, h, v.server.main(h)(n), body)
  }

  /** The remembered validators name the applied body, or nothing was applied and there are none. */
  ghost predicate Coherent(env: Env, world: World, data: Data, url: Url) {
    var v := ValidatorsOf(data.files, url);
    if url in data.applied then
      var body := data.applied[url];
      && v.sha256 == Some(env.sha256(body)) && v.size == Some(|body|) && Names(world, v.etag, body)
      && v.md5 == (if url in world.sidecars then Some(world.md5(body)) else None)
    else v.sha256.None? && v.size.None? && v.etag.None? && v.md5.None?
  }

  // ---------------------------------------------------------------- one visit

  lemma HonestSidecarIsFoundOrFails(env: Env, world: World, v: Visit, body: Bytes)
    requires HonestSidecar(world, v.source, v.server, body)
    ensures var s := AskSidecar(env, v.source, v.server);
            if v.source.url in world.sidecars then s == Found(world.md5(body)) || s.SidecarFailed? else s == NotAsked
  {
    if Truthy(v.source.md5Url) {
      var outcome := Policy(v.server.sidecar, env.httpRetries).outcome;
      if outcome.Got? {
        var k := AcceptedReplyIsScripted(v.server.sidecar, env.httpRetries, 0, NoAttempts);
      } else if outcome.error.StatusCode().Some? {
        var k := FailureStatusIsScripted(v.server.sidecar, env.httpRetries, 0, NoAttempts);
      }
    }
  }

  lemma HonestGet(env: Env, world: World, v: Visit, previous: Option<Previous>, body: Bytes)
    requires Honest(world, v, body) && MainTrace(env, previous, v.server).outcome.Got?
    ensures var reply := MainTrace(env, previous, v.server).outcome.reply;
            && reply.Reply? && reply.status < 400
            && HonestReply(world, HeadersFor(previous), reply, body)
            && (reply.status != 304 ==> !reply.content.broken)
  {
    var h := HeadersFor(previous);
    var script := v.server.main(h);
    var k := AcceptedReplyIsScripted(SettledScript(script), env.httpRetries, 0, NoAttempts);
    assert HonestReply(world, h, v.server.main(h)(k), body);
  }

  /** The heart of the matter: coherence is kept, and what is now applied is current. */
  lemma HonestVisitAppliesCurrentBody(env: Env, world: World, data: Data, v: Visit, runId: nat, body: Bytes)
    requires HashesAreInjective(env, world) && Honest(world, v, body)
    requires Coherent(env, world, data, v.source.url)
    ensures var visited := VisitSource(env, data, v, runId);
            && Coherent(env, world, visited.data, v.source.url)
            && (visited.outcome.Returned? && visited.outcome.status != Error ==>
                  v.source.url in visited.data.applied && visited.data.applied[v.source.url] == body)
  {
    var previous := PreviousOf(env, data.files, v.source.url);
    HonestSidecarIsFoundOrFails(env, world, v, body);
    if MainTrace(env, previous, v.server).outcome.Got? {
      HonestGet(env, world, v, previous, body);
    }
    ResultDescribesBody(env, v.source, previous, v.server);
    var sidecar := AskSidecar(env, v.source, v.server);
    if Tier1Closes(previous, sidecar) {
      Tier1MeansCurrent(env, world, data, v, runId, body);
    } else if BodyIn(env, data, v).None? {
      NoBodyMeansCurrent(env, world, data, v, runId, body);
    } else {
      BodyMeansCurrent(env, world, data, v, runId, body);
    }
  }

  lemma Tier1MeansCurrent(env: Env, world: World, data: Data, v: Visit, runId: nat, body: Bytes)
    requires HashesAreInjective(env, world) && Honest(world, v, body) && Coherent(env, world, data, v.source.url)
    requires AskSidecar(env, v.source, v.server) == Found(world.md5(body))
    requires Tier1Closes(PreviousOf(env, data.files, v.source.url), AskSidecar(env, v.source, v.server))
    ensures v.source.url in data.applied && data.applied[v.source.url] == body
    ensures Coherent(env, world, VisitSource(env, data, v, runId).data, v.source.url)
    ensures VisitSource(env, data, v, runId).data.applied == data.applied
  {
  }

  /** Without a body the visit failed, or a 304 answered the tag that names the applied body. */
  lemma NoBodyMeansCurrent(env: Env, world: World, data: Data, v: Visit, runId: nat, body: Bytes)
    requires HashesAreInjective(env, world) && Honest(world, v, body) && Coherent(env, world, data, v.source.url)
    requires var previous := PreviousOf(env, data.files, v.source.url);
             !Tier1Closes(previous, AskSidecar(env, v.source, v.server)) && BodyIn(env, data, v).None?
    ensures var visited := VisitSource(env, data, v, runId);
            && visited.data.applied == data.applied && Coherent(env, world, visited.data, v.source.url)
            && (visited.outcome.Returned? && visited.outcome.status != Error ==>
                  v.source.url in data.applied && data.applied[v.source.url] == body)
  {
    var previous := PreviousOf(env, data.files, v.source.url);
    ResultDescribesBody(env, v.source, previous, v.server);
    if MainTrace(env, previous, v.server).outcome.Got? {
      HonestGet(env, world, v, previous, body);
    }
  }

  /** With a body, it is the current one; ETL applies it unless it is the applied one already. */
  lemma BodyMeansCurrent(env: Env, world: World, data: Data, v: Visit, runId: nat, body: Bytes)
    requires HashesAreInjective(env, world) && Honest(world, v, body) && Coherent(env, world, data, v.source.url)
    requires BodyIn(env, data, v).Some?
    ensures var visited := VisitSource(env, data, v, runId);
            && BodyIn(env, data, v) == Some(body)
            && Coherent(env, world, visited.data, v.source.url)
            && (visited.outcome.Returned? ==>
                  v.source.url in visited.data.applied && visited.data.applied[v.source.url] == body)
  {
    var previous := PreviousOf(env, data.files, v.source.url);
    ResultDescribesBody(env, v.source, previous, v.server);
    HonestSidecarIsFoundOrFails(env, world, v, body);
    HonestGet(env, world, v, previous, body);
  }

  // ---------------------------------------------------------------- whole histories

  lemma CoherentFrame(env: Env, world: World, data: Data, v: Visit, runId: nat, url: Url)
    requires Coherent(env, world, data, url) && v.source.url != url
    ensures Coherent(env, world, VisitSource(env, data, v, runId).data, url)
  {
    VisitFrame(env, data, v, runId, url);
  }

  /** Every visit to `url` meets an honest server; the body it serves may differ from visit to visit. */
  ghost predicate HonestTo(world: World, visits: seq<Visit>, url: Url) {
    forall k :: 0 <= k < |visits| && visits[k].source.url == url ==> exists body :: Honest(world, visits[k], body)
  }

  lemma {:induction false} VisitsKeepCoherence(env: Env, world: World, data: Data, visits: seq<Visit>, runId: nat, url: Url)
    requires HashesAreInjective(env, world) && HonestTo(world, visits, url) && Coherent(env, world, data, url)
    ensures Coherent(env, world, VisitAll(env, data, visits, runId).data, url)
    decreases |visits|
  {
    if visits != [] {
      var init, last := visits[..|visits| - 1], visits[|visits| - 1];
      VisitsKeepCoherence(env, world, data, init, runId, url);
      var before := VisitAll(env, data, init, runId).data;
      if last.source.url == url {
        var body :| Honest(world, last, body);
        HonestVisitAppliesCurrentBody(env, world, before, last, runId, body);
      } else {
        CoherentFrame(env, world, before, last, runId, url);
      }
    }
  }

  lemma {:induction false} HistoryKeepsCoherence(env: Env, world: World, runs: seq<Run>, grace: nat, url: Url)
    requires grace >= 1 && HashesAreInjective(env, world)
    requires forall i :: 0 <= i < |runs| && runs[i].Winner? ==> HonestTo(world, runs[i].visits, url)
    ensures Coherent(env, world, After(env, EMPTY_STORE, runs, grace).data, url)
  {
    if runs != [] {
      var init, last := runs[..|runs| - 1], runs[|runs| - 1];
      HistoryKeepsCoherence(env, world, init, grace, url);
      var store := After(env, EMPTY_STORE, init, grace);
      RunEndsWithItsVisits(env, store, last, grace);
      if last.Winner? {
        VisitsKeepCoherence(env, world, store.data, last.visits, last.id, url);
      }
    }
  }

  /**
   * Detection refines downloading: after any history and any earlier visits of the current run, a
   * visit that does not raise and does not end in ERROR leaves the server's current body applied.
   */
  lemma {:induction false} DetectionRefinesDownloading(
    env: Env, world: World, runs: seq<Run>, grace: nat, run: Run, k: nat, body: Bytes)
    requires grace >= 1 && HashesAreInjective(env, world)
    requires run.Winner? && k < |run.visits| && Honest(world, run.visits[k], body)
    requires forall i :: 0 <= i < |runs| && runs[i].Winner? ==> HonestTo(world, runs[i].visits, run.visits[k].source.url)
    requires HonestTo(world, run.visits[..k], run.visits[k].source.url)
    ensures var before := DataAt(env, After(env, EMPTY_STORE, runs, grace), run, k);
            var visited, url := VisitSource(env, before, run.visits[k], run.id), run.visits[k].source.url;
            visited.outcome.Returned? && visited.outcome.status != Error ==>
              url in visited.data.applied && visited.data.applied[url] == body
  {
    var url := run.visits[k].source.url;
    HistoryKeepsCoherence(env, world, runs, grace, url);
    var store := After(env, EMPTY_STORE, runs, grace);
    VisitsKeepCoherence(env, world, store.data, run.visits[..k], run.id, url);
    HonestVisitAppliesCurrentBody(env, world, DataAt(env, store, run, k), run.visits[k], run.id, body);
  }
}
