/**
 * Rows of sources that do not change: no ETL runs for them, so they age although the server still
 * publishes them.
 */
module Expiry {
  import opened Prelude
  import opened Tables
  import opened Database
  import opened Gc
  import opened RetryPolicy
  import opened Download
  import opened Fetcher
  import opened SyncState
  import opened Orchestrator
  import opened History
  import opened ChangeDetection
  import opened Refinement
  import opened RunHistory
  import opened Scenarios

  /** The run held the lock and every one of its visits ended UNCHANGED. */
  ghost predicate AllUnchanged(env: Env, store: Store, run: Run) {
    run.Winner? && forall k :: 0 <= k < |run.visits| ==>
      VisitSource(env, DataAt(env, store, run, k), run.visits[k], run.id).outcome == Returned(Unchanged)
  }

  lemma UnchangedVisit(env: Env, data: Data, v: Visit, runId: nat)
    requires VisitSource(env, data, v, runId).outcome == Returned(Unchanged)
    ensures VisitSource(env, data, v, runId).data.applied == data.applied
    ensures VisitWrites(env, data, v) == []
  {
  }

  /** Such a run applies nothing, writes no row, and is a success. */
  lemma {:induction false} UnchangedRunWritesNothing(env: Env, store: Store, run: Run, k: nat)
    requires AllUnchanged(env, store, run) && k <= |run.visits|
    ensures DataAt(env, store, run, k).applied == store.data.applied
    ensures WritesOf(env, store.data, run.visits[..k], run.id) == []
    ensures CountAll(VisitAll(env, store.data, run.visits[..k], run.id).outcomes) == Counts(k, 0, 0, k, 0)
  {
    hide VisitSource, VisitWrites, CountAll;
    CountOneMore([], Raised);
    if k > 0 {
      UnchangedRunWritesNothing(env, store, run, k - 1);
      var before := VisitAll(env, store.data, run.visits[..k - 1], run.id);
      assert run.visits[..k][..k - 1] == run.visits[..k - 1];
      assert VisitSource(env, before.data, run.visits[k - 1], run.id).outcome == Returned(Unchanged);
      UnchangedVisit(env, before.data, run.visits[k - 1], run.id);
      CountOneMore(before.outcomes, Returned(Unchanged));
    }
  }

  lemma UnchangedRun(env: Env, store: Store, run: Run, grace: nat, id: RowId)
    requires grace >= 1 && AllUnchanged(env, store, run)
    ensures Succeeds(env, store, run) && !Touched(env, store, run, id)
    ensures Apply(env, store, run, grace).data.applied == store.data.applied
  {
    UnchangedRunWritesNothing(env, store, run, |run.visits|);
    assert run.visits[..|run.visits|] == run.visits;
    RunEndsWithItsVisits(env, store, run, grace);
  }

  ghost predicate UnchangedFrom(env: Env, runs: seq<Run>, lo: nat, hi: nat, grace: nat)
    requires grace >= 1 && hi <= |runs|
  {
    forall k :: lo <= k < hi ==> AllUnchanged(env, Reached(env, runs, k, grace), runs[k])
  }

  lemma {:induction false} UnchangedRuns(env: Env, runs: seq<Run>, lo: nat, hi: nat, grace: nat, id: RowId)
    requires grace >= 1 && lo <= hi <= |runs| && UnchangedFrom(env, runs, lo, hi, grace)
    ensures SuccessCount(env, runs, lo, hi, grace) == hi - lo
    ensures UntouchedBetween(env, runs, lo, hi, grace, id)
    ensures Reached(env, runs, hi, grace).data.applied == Reached(env, runs, lo, grace).data.applied
    decreases hi
  {
    hide AllUnchanged, Reached, Touched, Succeeds, Apply;
    if lo < hi {
      UnchangedRuns(env, runs, lo, hi - 1, grace, id);
      UnchangedRun(env, Reached(env, runs, hi - 1, grace), runs[hi - 1], grace, id);
      ReachedStep(env, runs, hi - 1, grace);
    }
  }

  /** The ETL of `body` upserts the row. */
  predicate Publishes(v: Visit, body: Bytes, id: RowId) {
    v.load(body).Loads? && Touches(v.load(body).writes, id)
  }

  /** Every visit to `url` in these runs has an ETL that makes the row out of `body`. */
  ghost predicate PublishedIn(runs: seq<Run>, lo: nat, hi: nat, url: Url, body: Bytes, id: RowId)
    requires hi <= |runs|
  {
    forall k, m :: lo <= k < hi && runs[k].Winner? && 0 <= m < |runs[k].visits| && runs[k].visits[m].source.url == url ==>
      Publishes(runs[k].visits[m], body, id)
  }

  ghost predicate HonestHistory(world: World, runs: seq<Run>, url: Url) {
    forall i :: 0 <= i < |runs| && runs[i].Winner? ==> HonestTo(world, runs[i].visits, url)
  }

  /** An honest server whose visit ends UNCHANGED serves the body that is applied. */
  lemma UnchangedMeansSameBody(
    env: Env, world: World, runs: seq<Run>, k: nat, grace: nat, m: nat, url: Url, body: Bytes)
    requires grace >= 1 && HashesAreInjective(env, world) && HonestHistory(world, runs, url)
    requires k < |runs| && AllUnchanged(env, Reached(env, runs, k, grace), runs[k])
    requires m < |runs[k].visits| && runs[k].visits[m].source.url == url && Honest(world, runs[k].visits[m], body)
    ensures var applied := Reached(env, runs, k, grace).data.applied; url in applied && applied[url] == body
  {
    hide VisitSource, VisitWrites, Honest, HashesAreInjective, VisitAll;
    var store, run := Reached(env, runs, k, grace), runs[k];
    assert HonestTo(world, run.visits, url);
    forall n | 0 <= n < m && run.visits[..m][n].source.url == url
      ensures exists b :: Honest(world, run.visits[..m][n], b)
    {
      assert run.visits[..m][n] == run.visits[n];
    }
    forall i | 0 <= i < k && runs[..k][i].Winner?
      ensures HonestTo(world, runs[..k][i].visits, url)
    {
      assert runs[..k][i] == runs[i];
    }
    DetectionRefinesDownloading(env, world, runs[..k], grace, run, m, body);
    UnchangedRunWritesNothing(env, store, run, m);
    UnchangedVisit(env, DataAt(env, store, run, m), run.visits[m], run.id);
  }

  /**
   * After a successful run touched a row, runs that find every source unchanged make it stale exactly
   * when there have been N of them; yet every honest server of its source still publishes the row.
   */
  lemma UnchangedSourcesExpire(
    env: Env, world: World, runs: seq<Run>, i: nat, j: nat, grace: nat, id: RowId, url: Url)
    requires grace >= 1 && i < j <= |runs| && InIdOrder(runs)
    requires HashesAreInjective(env, world) && HonestHistory(world, runs, url)
    requires Succeeds(env, Reached(env, runs, i, grace), runs[i]) && Touched(env, Reached(env, runs, i, grace), runs[i], id)
    requires UnchangedFrom(env, runs, i + 1, j, grace)
    requires var applied := Reached(env, runs, i + 1, grace).data.applied;
             url in applied && PublishedIn(runs, i + 1, j, url, applied[url], id)
    ensures var rows := Reached(env, runs, j, grace).data.rows;
            id in rows && (rows[id].stale <==> j - i - 1 >= grace)
    ensures forall k, m, body ::
              i < k < j && runs[k].Winner? && 0 <= m < |runs[k].visits| && runs[k].visits[m].source.url == url
              && Honest(world, runs[k].visits[m], body) ==>
                Publishes(runs[k].visits[m], body, id)
  {
    hide Reached, Touched, Succeeds, AllUnchanged, Honest, HashesAreInjective, HonestHistory, Publishes;
    UnchangedRuns(env, runs, i + 1, j, grace, id);
    ExpiresExactlyAfterGrace(env, runs, i, j, grace, id);
    forall k, m, body | i < k < j && runs[k].Winner? && 0 <= m < |runs[k].visits| && runs[k].visits[m].source.url == url
        && Honest(world, runs[k].visits[m], body)
      ensures Publishes(runs[k].visits[m], body, id)
    {
      UnchangedMeansSameBody(env, world, runs, k, grace, m, url, body);
      UnchangedRuns(env, runs, i + 1, k, grace, id);
    }
  }
}
