/**
 * What three-tier change detection guarantees over whole histories of runs against a changing server.
 */
module ChangeDetection {
  import opened Prelude
  import opened Tables
  import opened Database
  import opened RetryPolicy
  import opened Download
  import opened Fetcher
  import opened SyncState
  import opened Orchestrator
  import opened History

  /** A visit to another URL changes nothing about this one. */
  lemma VisitFrame(env: Env, data: Data, v: Visit, runId: nat, url: Url)
    requires v.source.url != url
    ensures var after := VisitSource(env, data, v, runId).data;
            && ValidatorsOf(after.files, url) == ValidatorsOf(data.files, url)
            && PreviousOf(env, after.files, url) == PreviousOf(env, data.files, url)
            && (url in after.applied <==> url in data.applied)
            && (url in data.applied ==> after.applied[url] == data.applied[url])
  {
    hide FetchedBody, UpsertAll, PayloadFor, Policy, SidecarOf;
    assert FetchIn(env, data, v).url == v.source.url;
  }

  /**
   * What a visit records about itself. The parse time moves exactly when ETL applied a body; a visit
   * that raised records nothing.
   */
  lemma VisitIsRecorded(env: Env, data: Data, v: Visit, runId: nat)
    ensures var visited, url := VisitSource(env, data, v, runId), v.source.url;
            var applied := visited.outcome.Returned? && RunsEtl(env, data, v);
            if visited.outcome.Raised? then visited.data == data
            else
              && url in visited.data.files
              && var row := visited.data.files[url];
                 && row.lastRunId == runId && row.lastStatus == visited.outcome.status && row.lastFetchedAt == v.now
                 && row.rir == v.source.rir && row.tier == v.source.tier && row.kind == v.source.format
                 && row.lastParsedAt == (if applied then Some(v.now)
                                         else if url in data.files then data.files[url].lastParsedAt else None)
                 && (!applied ==> visited.data.rows == data.rows && visited.data.applied == data.applied)
  {
    hide FetchedBody, UpsertAll, PayloadFor, Policy, SidecarOf;
    assert FetchIn(env, data, v).url == v.source.url;
  }

  // ---------------------------------------------------------------- last_sha256 and the applied body

  /** `last_sha256` is NULL, or the hash of the body that ETL applied last for this URL. */
  ghost predicate ShaDescribesApplied(env: Env, data: Data) {
    forall url ::
      ValidatorsOf(data.files, url).sha256 == if url in data.applied then Some(env.sha256(data.applied[url])) else None
  }

  lemma OthersKeepSha(env: Env, data: Data, v: Visit, runId: nat)
    requires ShaDescribesApplied(env, data)
    ensures var after := VisitSource(env, data, v, runId).data;
            forall u :: u != v.source.url ==>
              ValidatorsOf(after.files, u).sha256 == if u in after.applied then Some(env.sha256(after.applied[u])) else None
  {
    hide VisitSource;
    forall u | u != v.source.url
      ensures var after := VisitSource(env, data, v, runId).data;
              ValidatorsOf(after.files, u).sha256 == if u in after.applied then Some(env.sha256(after.applied[u])) else None
    {
      VisitFrame(env, data, v, runId, u);
    }
  }

  /**
   * A visit keeps the invariant, whatever the server answers and whether or not ETL raises, except
   * when it downloads a body with another hash than the recorded one in a format that has no ETL.
   */
  lemma VisitKeepsShaIff(env: Env, data: Data, v: Visit, runId: nat)
    requires ShaDescribesApplied(env, data)
    ensures var body := BodyIn(env, data, v);
            ShaDescribesApplied(env, VisitSource(env, data, v, runId).data)
            <==> || v.fault || v.source.format != Format.Md5 || body.None?
                 || ValidatorsOf(data.files, v.source.url).sha256 == Some(env.sha256(body.value))
  {
    var url := v.source.url;
    ShaAfterVisit(env, data, v, runId);
    OthersKeepSha(env, data, v, runId);
    hide VisitSource, FetchedBody, FetchOf;
    var after, body := VisitSource(env, data, v, runId).data, BodyIn(env, data, v);
    var kept := ValidatorsOf(data.files, url).sha256;
    assert kept == if url in data.applied then Some(env.sha256(data.applied[url])) else None;
    var holds := ValidatorsOf(after.files, url).sha256 == if url in after.applied then Some(env.sha256(after.applied[url])) else None;
    assert ShaDescribesApplied(env, after) <==> holds;
  }

  /** The hash and the applied body of a URL after its visit. */
  lemma ShaAfterVisit(env: Env, data: Data, v: Visit, runId: nat)
    ensures var visited, url, body := VisitSource(env, data, v, runId), v.source.url, BodyIn(env, data, v);
            var kept, now := ValidatorsOf(data.files, url).sha256, ValidatorsOf(visited.data.files, url).sha256;
            && (visited.outcome.Raised? <==>
                  v.fault || (RunsEtl(env, data, v) && v.load(body.value).Raises?))
            && (visited.outcome.Raised? ==> visited.data == data)
            && (visited.outcome.Returned? ==>
                  && now == (if body.Some? then Some(env.sha256(body.value)) else kept)
                  && (if RunsEtl(env, data, v) then url in visited.data.applied && visited.data.applied[url] == body.value
                      else visited.data.applied == data.applied))
            && (RunsEtl(env, data, v) <==>
                  body.Some? && kept != Some(env.sha256(body.value)) && v.source.format != Format.Md5)
  {
    hide FetchedBody, UpsertAll, Policy, SidecarOf;
    ResultDescribesBody(env, v.source, PreviousOf(env, data.files, v.source.url), v.server);
    assert FetchIn(env, data, v).url == v.source.url;
  }

  /** Every format in the catalogue has a parser; `Md5` has none. */
  ghost predicate ParsedVisits(visits: seq<Visit>) {
    forall k :: 0 <= k < |visits| ==> visits[k].source.format != Format.Md5
  }

  lemma {:induction false} VisitsKeepSha(env: Env, data: Data, visits: seq<Visit>, runId: nat)
    requires ShaDescribesApplied(env, data) && ParsedVisits(visits)
    ensures ShaDescribesApplied(env, VisitAll(env, data, visits, runId).data)
    decreases |visits|
  {
    if visits != [] {
      VisitsKeepSha(env, data, visits[..|visits| - 1], runId);
      VisitKeepsShaIff(env, VisitAll(env, data, visits[..|visits| - 1], runId).data, visits[|visits| - 1], runId);
    }
  }

  /** In every reachable committed state: arbitrary servers, arbitrary ETL failures, supported formats. */
  lemma {:induction false} ShaInvariantOverHistory(env: Env, runs: seq<Run>, grace: nat)
    requires grace >= 1
    requires forall i :: 0 <= i < |runs| && runs[i].Winner? ==> ParsedVisits(runs[i].visits)
    ensures ShaDescribesApplied(env, After(env, EMPTY_STORE, runs, grace).data)
  {
    if runs != [] {
      var init, last := runs[..|runs| - 1], runs[|runs| - 1];
      ShaInvariantOverHistory(env, init, grace);
      var store := After(env, EMPTY_STORE, init, grace);
      RunEndsWithItsVisits(env, store, last, grace);
      if last.Winner? {
        VisitsKeepSha(env, store.data, last.visits, last.id);
      }
    }
  }

  // ---------------------------------------------------------------- what a 304 leaves behind

  /** A 304 stores the entity tag and the date that it carries, and leaves digest, hash, size and rows alone. */
  lemma NotModifiedIsRecorded(env: Env, data: Data, v: Visit, runId: nat)
    requires var t := MainTrace(env, PreviousOf(env, data.files, v.source.url), v.server);
             t.outcome.Got? && t.outcome.reply.Reply? && t.outcome.reply.status == 304
    requires !AskSidecar(env, v.source, v.server).SidecarFailed? && !v.fault
    requires !Tier1Closes(PreviousOf(env, data.files, v.source.url), AskSidecar(env, v.source, v.server))
    ensures var visited, url := VisitSource(env, data, v, runId), v.source.url;
            var sent := MainTrace(env, PreviousOf(env, data.files, url), v.server).outcome.reply.content;
            var kept := ValidatorsOf(data.files, url);
            && visited.outcome == Returned(Unchanged) && url in visited.data.files
            && visited.data.rows == data.rows && visited.data.applied == data.applied
            && var row := visited.data.files[url];
               && row.md5 == kept.md5 && row.sha256 == kept.sha256 && row.size == kept.size
               && (sent.etag.Some? && sent.etag.value != "" ==> row.etag == sent.etag)
               && (sent.etag.None? || sent.etag.value == "" ==> row.etag == kept.etag)
               && (sent.lastModified.Some? && sent.lastModified.value != "" ==>
                     row.lastModified == if env.parseDate(sent.lastModified.value).Some?
                                         then env.parseDate(sent.lastModified.value) else kept.lastModified)
  {
    hide Policy, AskSidecar;
  }

  // ---------------------------------------------------------------- last_md5

  lemma Md5ChangesOnlyWithABody(env: Env, data: Data, v: Visit, runId: nat, url: Url)
    requires v.source.url == url ==> BodyIn(env, data, v).None?
    ensures ValidatorsOf(VisitSource(env, data, v, runId).data.files, url).md5 == ValidatorsOf(data.files, url).md5
  {
    if v.source.url == url {
      ResultDescribesBody(env, v.source, PreviousOf(env, data.files, url), v.server);
    } else {
      VisitFrame(env, data, v, runId, url);
    }
  }

  /** No visit to `url` in this run downloads a body. */
  ghost predicate NoBodyInRun(env: Env, store: Store, run: Run, url: Url) {
    run.Winner? ==> forall k :: 0 <= k < |run.visits| && run.visits[k].source.url == url ==>
      BodyIn(env, DataAt(env, store, run, k), run.visits[k]).None?
  }

  ghost predicate NoBodyInHistory(env: Env, store: Store, runs: seq<Run>, grace: nat, url: Url)
    requires grace >= 1
  {
    forall i :: 0 <= i < |runs| ==> NoBodyInRun(env, After(env, store, runs[..i], grace), runs[i], url)
  }

  lemma {:induction false} Md5StableInRun(env: Env, store: Store, run: Run, k: nat, url: Url)
    requires run.Winner? && k <= |run.visits| && NoBodyInRun(env, store, run, url)
    ensures ValidatorsOf(DataAt(env, store, run, k).files, url).md5 == ValidatorsOf(store.data.files, url).md5
  {
    if k > 0 {
      Md5StableInRun(env, store, run, k - 1, url);
      assert run.visits[..k][..k - 1] == run.visits[..k - 1];
      Md5ChangesOnlyWithABody(env, DataAt(env, store, run, k - 1), run.visits[k - 1], run.id, url);
    }
  }

  lemma {:induction false} Md5StableInHistory(env: Env, store: Store, runs: seq<Run>, grace: nat, url: Url)
    requires grace >= 1 && NoBodyInHistory(env, store, runs, grace, url)
    ensures ValidatorsOf(After(env, store, runs, grace).data.files, url).md5 == ValidatorsOf(store.data.files, url).md5
  {
    if runs != [] {
      var n := |runs| - 1;
      var init, last := runs[..n], runs[n];
      forall i | 0 <= i < n
        ensures NoBodyInRun(env, After(env, store, init[..i], grace), init[i], url)
      {
        assert init[..i] == runs[..i];
        assert NoBodyInRun(env, After(env, store, runs[..i], grace), runs[i], url);
      }
      Md5StableInHistory(env, store, init, grace, url);
      var before := After(env, store, init, grace);
      assert NoBodyInRun(env, before, last, url);
      RunEndsWithItsVisits(env, before, last, grace);
      if last.Winner? {
        Md5StableInRun(env, before, last, |last.visits|, url);
        assert last.visits[..|last.visits|] == last.visits;
      }
    }
  }

  /**
   * After a 304 that contradicts its sidecar, a fetch with that same sidecar cannot close at tier 1,
   * however many runs without a downloaded body lie between.
   */
  lemma {:induction false} MismatchIsRechecked(
    env: Env, data: Data, v: Visit, runId: nat, start: Store, runs: seq<Run>, grace: nat, later: Visit)
    requires grace >= 1 && later.source.url == v.source.url
    requires AskSidecar(env, v.source, v.server).Found?
    requires FetchIn(env, data, v).tierUsed == Some(2)
    requires start.data == VisitSource(env, data, v, runId).data
    requires NoBodyInHistory(env, start, runs, grace, v.source.url)
    requires AskSidecar(env, later.source, later.server) == AskSidecar(env, v.source, v.server)
    ensures FetchIn(env, After(env, start, runs, grace).data, later).tierUsed != Some(1)
  {
    var url := v.source.url;
    Md5StableInHistory(env, start, runs, grace, url);
    var previous := PreviousOf(env, data.files, url);
    ResultDescribesBody(env, v.source, previous, v.server);
    Md5ChangesOnlyWithABody(env, data, v, runId, url);
    assert !Tier1Closes(previous, AskSidecar(env, v.source, v.server));
  }
}
