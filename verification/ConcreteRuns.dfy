/** Concrete runs in which the program does something else than its documentation says. */
module ConcreteRuns {
  import opened Prelude
  import opened Tables
  import opened Database
  import opened Gc
  import opened RetryPolicy
  import opened Download
  import opened Fetcher
  import opened SyncState
  import opened Orchestrator
  import opened History
  import opened Refinement
  import opened RunHistory
  import opened LockProtocol
  import opened Scenarios
  import opened Expiry
  import opened LateRun

  /** A source whose server holds `body` under the entity tag `tag`, and whose ETL writes one row. */
  function OneRow(tag: string, body: Bytes, w: Write): Visit {
    Visiting(SourceWith(None), Conditional(tag, body), [w])
  }

  function Faulty(v: Visit): Visit {
    v.(fault := true)
  }

  lemma WritesTouch(w: Write)
    ensures Touches([w], w.id)
  {
  }

  lemma RunOfOne(env: Env, store: Store, id: nat, v: Visit)
    ensures VisitAll(env, store.data, [v], id)
         == Progress(VisitSource(env, store.data, v, id).data, [VisitSource(env, store.data, v, id).outcome])
    ensures WritesOf(env, store.data, [v], id) == VisitWrites(env, store.data, v)
    ensures VisitSource(env, store.data, v, id).outcome in {Returned(New), Returned(Updated), Returned(Unchanged)} ==>
              Succeeds(env, store, Winner(id, [v]))
  {
    hide VisitSource, VisitWrites;
    assert [v][..0] == [];
    assert VisitAll(env, store.data, [], id) == Progress(store.data, []);
    var outcome := VisitSource(env, store.data, v, id).outcome;
    CountOneMore([], outcome);
    assert [] + [outcome] == [outcome];
  }

  /** A run whose one source has a body that is not the recorded one succeeds and touches the row. */
  lemma DownloadRun(env: Env, store: Store, id: nat, tag: string, body: Bytes, w: Write)
    requires env.httpRetries >= 1
    requires ValidatorsOf(store.data.files, "u").etag != Some(tag)
    requires ValidatorsOf(store.data.files, "u").sha256 != Some(env.sha256(body))
    ensures var v, run := OneRow(tag, body, w), Winner(id, [OneRow(tag, body, w)]);
            var after := VisitSource(env, store.data, v, id);
            && Succeeds(env, store, run) && Touched(env, store, run, w.id)
            && VisitAll(env, store.data, [v], id).data == after.data
            && after.outcome in {Returned(New), Returned(Updated)}
            && "u" in after.data.files && after.data.files["u"].etag == Some(tag)
            && after.data.files["u"].sha256 == Some(env.sha256(body))
            && "u" in after.data.applied && after.data.applied["u"] == body
  {
    var v := OneRow(tag, body, w);
    DownloadRecorded(env, store.data, v, id, body, Some(tag), [w]);
    RunOfOne(env, store, id, v);
    WritesTouch(w);
    hide VisitSource, Policy, FetchOf, FetchedBody, Succeeds;
    assert VisitWrites(env, store.data, v) == [w];
  }

  // ---------------------------------------------------------------- run status

  lemma FaultRaises(env: Env, data: Data, v: Visit, id: nat)
    requires v.fault
    ensures VisitSource(env, data, v, id) == Visited(data, Raised)
  {
  }

  /** A run of two sources, of which the second raises. */
  lemma {:induction false} RunOfTwo(env: Env, store: Store, id: nat, v: Visit, bad: Visit, grace: nat)
    requires grace >= 1 && bad.fault
    ensures var first := VisitSource(env, store.data, v, id).outcome;
            && VisitAll(env, store.data, [v, bad], id).outcomes == [first, Raised]
            && RunOf(env, store, id, [v, bad], grace).runs[id] == FinalStatus(CountAll([first, Raised]))
  {
    hide VisitSource, Succeeds, AfterGc, CountAll, WritesOf, VisitWrites, FinalStatus;
    var first := VisitSource(env, store.data, v, id);
    RunOfOne(env, store, id, v);
    FaultRaises(env, first.data, bad, id);
    assert [v, bad][..1] == [v];
    assert [first.outcome] + [Raised] == [first.outcome, Raised];
  }

  lemma StatusOfTwo(first: SourceOutcome)
    ensures FinalStatus(CountAll([first, Raised])) == if first.Returned? && first.status != Error then Failed else Success
  {
    CountOneMore([], first);
    CountOneMore([first], Raised);
    assert [] + [first] == [first] && [first] + [Raised] == [first, Raised];
    hide CountAll;
  }

  /** One source loads and one raises: the run is recorded as failed. Every source raises: as a success. */
  lemma StatusSurprises(env: Env, body: Bytes, w: Write)
    requires env.httpRetries >= 1
    ensures var good, bad := OneRow("a", body, w), Faulty(OneRow("a", body, w));
            && VisitAll(env, EMPTY_STORE.data, [good, bad], 1).outcomes == [Returned(New), Raised]
            && RunOf(env, EMPTY_STORE, 1, [good, bad], 7).runs[1] == RunStatus.Failed
            && VisitAll(env, EMPTY_STORE.data, [bad, bad], 1).outcomes == [Raised, Raised]
            && RunOf(env, EMPTY_STORE, 1, [bad, bad], 7).runs[1] == RunStatus.Success
  {
    var good, bad := OneRow("a", body, w), Faulty(OneRow("a", body, w));
    DownloadRecorded(env, EMPTY_STORE.data, good, 1, body, Some("a"), [w]);
    FaultRaises(env, EMPTY_STORE.data, bad, 1);
    hide VisitSource, VisitAll, RunOf, CountAll, Policy, FetchOf, FetchedBody;
    RunOfTwo(env, EMPTY_STORE, 1, good, bad, 7);
    RunOfTwo(env, EMPTY_STORE, 1, bad, bad, 7);
    StatusOfTwo(Returned(New));
    StatusOfTwo(Raised);
  }

  // ---------------------------------------------------------------- a row that is still published goes stale

  lemma ConditionalIsHonest(world: World, tag: string, body: Bytes, w: Write)
    requires tag != "" && world.named(tag) == body && world.sidecars == {}
    ensures Honest(world, OneRow(tag, body, w), body)
  {
    var v := OneRow(tag, body, w);
    forall h: Headers, n: nat
      ensures HonestReply(world, h, v.server.main(h)(n), body)
    {
      ConcatOne(body);
    }
  }

  /** The second visit is answered with 304. */
  lemma SecondVisitUnchanged(env: Env, data: Data, id: nat, tag: string, body: Bytes, w: Write)
    requires env.httpRetries >= 1 && tag != "" && "u" in data.files && data.files["u"].etag == Some(tag)
    ensures VisitSource(env, data, OneRow(tag, body, w), id).outcome == Returned(Unchanged)
  {
    var v := OneRow(tag, body, w);
    FirstAnswerCounts(env, PreviousOf(env, data.files, "u"), v.server);
    hide Policy;
  }

  function TwoRuns(v: Visit): seq<Run> {
    [Winner(1, [v]), Winner(2, [v])]
  }

  lemma FirstOfTwo(env: Env, tag: string, body: Bytes, w: Write)
    requires env.httpRetries >= 1
    ensures var v := OneRow(tag, body, w);
            var start, mid := Reached(env, TwoRuns(v), 0, 1), Reached(env, TwoRuns(v), 1, 1).data;
            && Succeeds(env, start, Winner(1, [v])) && Touched(env, start, Winner(1, [v]), w.id)
            && "u" in mid.files && mid.files["u"].etag == Some(tag)
            && "u" in mid.applied && mid.applied["u"] == body
  {
    var v := OneRow(tag, body, w);
    var runs := TwoRuns(v);
    assert runs[..0] == [];
    assert Reached(env, runs, 0, 1) == EMPTY_STORE;
    DownloadRun(env, EMPTY_STORE, 1, tag, body, w);
    hide VisitSource, Succeeds, Touched, Apply;
    ReachedStep(env, runs, 0, 1);
    RunEndsWithItsVisits(env, EMPTY_STORE, runs[0], 1);
  }

  lemma SecondOfTwo(env: Env, store: Store, tag: string, body: Bytes, w: Write)
    requires env.httpRetries >= 1 && tag != "" && "u" in store.data.files && store.data.files["u"].etag == Some(tag)
    ensures AllUnchanged(env, store, Winner(2, [OneRow(tag, body, w)]))
  {
    var v := OneRow(tag, body, w);
    SecondVisitUnchanged(env, store.data, 2, tag, body, w);
    hide VisitSource;
    assert [v][..0] == [];
    assert DataAt(env, store, Winner(2, [v]), 0) == store.data;
  }

  /**
   * With a grace of one run: a run loads the row, the next finds the source unchanged, and the row is
   * stale, though the server is honest and its body still holds the row.
   */
  lemma {:induction false} PublishedRowGoesStale(env: Env, world: World, body: Bytes, w: Write)
    requires env.httpRetries >= 1 && HashesAreInjective(env, world)
    requires world.named("a") == body && world.sidecars == {}
    ensures var v := OneRow("a", body, w);
            var rows := Reached(env, TwoRuns(v), 2, 1).data.rows;
            && AllUnchanged(env, Reached(env, TwoRuns(v), 1, 1), Winner(2, [v]))
            && w.id in rows && rows[w.id].stale && Honest(world, v, body) && Publishes(v, body, w.id)
  {
    var v := OneRow("a", body, w);
    hide Succeeds, Touched, Honest, HashesAreInjective, Reached, Publishes, AllUnchanged;
    ConditionalIsHonest(world, "a", body, w);
    RowIsPublished("a", body, w);
    FirstOfTwo(env, "a", body, w);
    SecondOfTwo(env, Reached(env, TwoRuns(v), 1, 1), "a", body, w);
    TwoRunsMeet(env, world, v, body, w.id);
    hide TwoRuns;
    UnchangedSourcesExpire(env, world, TwoRuns(v), 0, 2, 1, w.id, "u");
  }

  lemma RowIsPublished(tag: string, body: Bytes, w: Write)
    ensures Publishes(OneRow(tag, body, w), body, w.id)
  {
    WritesTouch(w);
  }

  lemma {:induction false} TwoRunsMeet(env: Env, world: World, v: Visit, body: Bytes, id: RowId)
    requires Honest(world, v, body) && Publishes(v, body, id)
    requires AllUnchanged(env, Reached(env, TwoRuns(v), 1, 1), Winner(2, [v]))
    ensures InIdOrder(TwoRuns(v)) && HonestHistory(world, TwoRuns(v), v.source.url)
    ensures UnchangedFrom(env, TwoRuns(v), 1, 2, 1) && PublishedIn(TwoRuns(v), 1, 2, v.source.url, body, id)
  {
    hide Honest, Reached, Publishes, AllUnchanged;
    assert HonestTo(world, [v], v.source.url);
  }

  // ---------------------------------------------------------------- a late run

  /** Two downloads of the same row: stale at once, and first seen in run 2 but last seen in run 1. */
  lemma LateRunExists(env: Env, a: Bytes, b: Bytes, w: Write)
    requires env.httpRetries >= 1 && env.sha256(a) != env.sha256(b)
    ensures var rows := Exec(env, LateSteps(OneRow("b", b, w), OneRow("a", a, w)), 1).committed.data.rows;
            && w.id in rows && rows[w.id].stale
            && rows[w.id].firstSeen == 2 && rows[w.id].lastSeen == 1
  {
    var early, late := OneRow("a", a, w), OneRow("b", b, w);
    var store := LateStore(env, early);
    DownloadRun(env, EMPTY_STORE, 2, "a", a, w);
    RunEndsWithItsVisits(env, EMPTY_STORE, Winner(2, [early]), 1);
    hide VisitSource, Succeeds, Touched, Exec;
    assert store == Apply(env, EMPTY_STORE, Winner(2, [early]), 1);
    DownloadRun(env, store, 1, "b", b, w);
    LateRunIsBornStale(env, late, early, w.id);
  }
}
