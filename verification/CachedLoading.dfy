/**
 * The tables themselves: loading only changed bodies gives the rows that loading the current body
 * at every visit would give. Any number of sources with honest servers and deterministic loaders
 * that write different rows.
 */
module CachedLoading {
  import opened Prelude
  import opened Tables
  import opened Database
  import opened Fetcher
  import opened ChangeDetection
  import opened SyncState
  import opened Orchestrator
  import opened Refinement

  /** One visit of a source: the run it belongs to and the body the server holds at that time. */
  datatype Step = Step(visit: Visit, runId: nat, body: Bytes)

  function Cached(env: Env, steps: seq<Step>): Data {
    if steps == [] then EMPTY_STORE.data
    else
      var last := steps[|steps| - 1];
      VisitSource(env, Cached(env, steps[..|steps| - 1]), last.visit, last.runId).data
  }

  /** The visit reached the server and did not raise. */
  predicate Clean(env: Env, data: Data, s: Step) {
    var outcome := VisitSource(env, data, s.visit, s.runId).outcome;
    outcome.Returned? && outcome.status != Error
  }

  /** Load the server's current body on every clean visit, with no change detection. */
  function Naive(env: Env, steps: seq<Step>): Rows {
    if steps == [] then map[]
    else
      var init, last := steps[..|steps| - 1], steps[|steps| - 1];
      var load := last.visit.load(last.body);
      if Clean(env, Cached(env, init), last) && load.Loads?
      then UpsertAll(Naive(env, init), load.writes, last.runId)
      else Naive(env, init)
  }

  /** Same keys, same payloads, same first sightings. */
  ghost predicate SameContent(a: Rows, b: Rows) {
    && a.Keys == b.Keys
    && forall id :: id in a ==> a[id].payload == b[id].payload && a[id].firstSeen == b[id].firstSeen
  }

  /** Writing `ws` again would change no payload. */
  ghost predicate Holds(rows: Rows, ws: seq<Write>) {
    forall id :: Touches(ws, id) ==> id in rows && rows[id].payload == LastWrite(ws, id).value
  }

  lemma UpsertKeepsSameContent(a: Rows, b: Rows, ws: seq<Write>, run: nat)
    requires SameContent(a, b)
    ensures SameContent(UpsertAll(a, ws, run), UpsertAll(b, ws, run))
    ensures Holds(UpsertAll(a, ws, run), ws)
  {
    var x, y := UpsertAll(a, ws, run), UpsertAll(b, ws, run);
    forall id
      ensures (id in x <==> id in y)
      ensures id in x ==> id in y && x[id].payload == y[id].payload && x[id].firstSeen == y[id].firstSeen
      ensures Touches(ws, id) ==> id in x && x[id].payload == LastWrite(ws, id).value
    {
      UpsertAllIsLastWins(a, ws, run, id);
      UpsertAllIsLastWins(b, ws, run, id);
      assert At(x, id).Some? <==> id in x;
      assert At(y, id).Some? <==> id in y;
    }
  }

  lemma ReloadChangesNothing(a: Rows, b: Rows, ws: seq<Write>, run: nat)
    requires SameContent(a, b) && Holds(a, ws)
    ensures SameContent(a, UpsertAll(b, ws, run))
  {
    var y := UpsertAll(b, ws, run);
    forall id
      ensures (id in a <==> id in y)
      ensures id in a ==> id in y && a[id].payload == y[id].payload && a[id].firstSeen == y[id].firstSeen
    {
      UpsertAllIsLastWins(b, ws, run, id);
      assert At(y, id).Some? <==> id in y;
      assert id in a <==> id in b;
    }
  }

  /** What the ETL of each source makes of a body. */
  type Loaders = (Url, Bytes) -> Load

  /** No row is written by two sources. */
  ghost predicate Disjoint(loaders: Loaders) {
    forall u, v, a, b, id :: u != v && Publishes(loaders, u, a, id) ==> !Publishes(loaders, v, b, id)
  }

  predicate Publishes(loaders: Loaders, url: Url, body: Bytes, id: RowId) {
    loaders(url, body).Loads? && Touches(loaders(url, body).writes, id)
  }

  ghost predicate HonestStep(world: World, s: Step, loaders: Loaders) {
    Honest(world, s.visit, s.body) && forall b :: s.visit.load(b) == loaders(s.visit.source.url, b)
  }

  ghost predicate HonestSteps(world: World, steps: seq<Step>, loaders: Loaders) {
    forall i :: 0 <= i < |steps| ==> HonestStep(world, steps[i], loaders)
  }

  /** The rows already hold what the applied body loads. */
  ghost predicate AppliedIsLoaded(data: Data, url: Url, loaders: Loaders) {
    url in data.applied ==> loaders(url, data.applied[url]).Loads? && Holds(data.rows, loaders(url, data.applied[url]).writes)
  }

  ghost predicate AllLoaded(env: Env, world: World, data: Data, loaders: Loaders) {
    forall url :: Coherent(env, world, data, url) && AppliedIsLoaded(data, url, loaders)
  }

  lemma {:induction false} CachedLoadingMatchesNaive(env: Env, world: World, steps: seq<Step>, loaders: Loaders)
    requires HashesAreInjective(env, world) && HonestSteps(world, steps, loaders) && Disjoint(loaders)
    ensures SameContent(Cached(env, steps).rows, Naive(env, steps))
    ensures AllLoaded(env, world, Cached(env, steps), loaders)
  {
    hide HonestStep, Disjoint, Clean, VisitSource, SameContent;
    if steps == [] {
      NothingLoaded(env, world, loaders);
    } else {
      var init, last := steps[..|steps| - 1], steps[|steps| - 1];
      CachedLoadingMatchesNaive(env, world, init, loaders);
      CachedStep(env, world, Cached(env, init), Naive(env, init), last, loaders);
      OthersStayLoaded(env, world, Cached(env, init), last, loaders);
      assert last.visit.load(last.body) == loaders(last.visit.source.url, last.body) by {
        LoaderOf(world, last, loaders);
      }
    }
  }

  lemma LoaderOf(world: World, s: Step, loaders: Loaders)
    requires HonestStep(world, s, loaders)
    ensures s.visit.load(s.body) == loaders(s.visit.source.url, s.body)
  {
  }

  lemma NothingLoaded(env: Env, world: World, loaders: Loaders)
    ensures AllLoaded(env, world, EMPTY_STORE.data, loaders) && SameContent(EMPTY_STORE.data.rows, map[])
  {
  }

  /** The source that is visited. */
  lemma CachedStep(env: Env, world: World, data: Data, naive: Rows, s: Step, loaders: Loaders)
    requires HashesAreInjective(env, world) && HonestStep(world, s, loaders)
    requires SameContent(data.rows, naive)
    requires Coherent(env, world, data, s.visit.source.url) && AppliedIsLoaded(data, s.visit.source.url, loaders)
    ensures var after, url := VisitSource(env, data, s.visit, s.runId).data, s.visit.source.url;
            && Coherent(env, world, after, url) && AppliedIsLoaded(after, url, loaders)
            && SameContent(after.rows,
                 if Clean(env, data, s) && loaders(url, s.body).Loads?
                 then UpsertAll(naive, loaders(url, s.body).writes, s.runId) else naive)
  {
    var after, url := VisitSource(env, data, s.visit, s.runId).data, s.visit.source.url;
    HonestVisitAppliesCurrentBody(env, world, data, s.visit, s.runId, s.body);
    ResultDescribesBody(env, s.visit.source, PreviousOf(env, data.files, url), s.visit.server);
    if Clean(env, data, s) {
      if RunsEtl(env, data, s.visit) {
        BodyMeansCurrent(env, world, data, s.visit, s.runId, s.body);
        UpsertKeepsSameContent(data.rows, naive, loaders(url, s.body).writes, s.runId);
      } else {
        assert after.rows == data.rows && after.applied == data.applied;
        ReloadChangesNothing(data.rows, naive, loaders(url, s.body).writes, s.runId);
      }
    }
  }

  /** The rows after a visit: as before, or with the loader's writes of one body upserted. */
  lemma VisitRows(env: Env, world: World, data: Data, s: Step, loaders: Loaders) returns (body: Bytes)
    requires HonestStep(world, s, loaders)
    ensures var after, load := VisitSource(env, data, s.visit, s.runId).data, loaders(s.visit.source.url, body);
            after.rows == data.rows || (load.Loads? && after.rows == UpsertAll(data.rows, load.writes, s.runId))
  {
    body := if BodyIn(env, data, s.visit).Some? then BodyIn(env, data, s.visit).value else [];
  }

  lemma HoldsBeside(rows: Rows, ws: seq<Write>, others: seq<Write>, run: nat)
    requires Holds(rows, ws) && forall id :: Touches(ws, id) ==> !Touches(others, id)
    ensures Holds(UpsertAll(rows, others, run), ws)
  {
    forall id | Touches(ws, id)
      ensures var after := UpsertAll(rows, others, run); id in after && after[id].payload == LastWrite(ws, id).value
    {
      UpsertAllIsLastWins(rows, others, run, id);
      assert At(UpsertAll(rows, others, run), id) == At(rows, id);
    }
  }

  /** The other sources: their rows are not touched. */
  lemma OthersStayLoaded(env: Env, world: World, data: Data, s: Step, loaders: Loaders)
    requires HonestStep(world, s, loaders) && Disjoint(loaders) && AllLoaded(env, world, data, loaders)
    ensures var after := VisitSource(env, data, s.visit, s.runId).data;
            forall url :: url != s.visit.source.url ==> Coherent(env, world, after, url) && AppliedIsLoaded(after, url, loaders)
  {
    var after := VisitSource(env, data, s.visit, s.runId).data;
    var body := VisitRows(env, world, data, s, loaders);
    hide VisitSource, HonestStep, Holds, Coherent, Touches;
    forall url | url != s.visit.source.url
      ensures Coherent(env, world, after, url) && AppliedIsLoaded(after, url, loaders)
    {
      assert Coherent(env, world, data, url) && AppliedIsLoaded(data, url, loaders);
      CoherentFrame(env, world, data, s.visit, s.runId, url);
      VisitFrame(env, data, s.visit, s.runId, url);
      var load := loaders(s.visit.source.url, body);
      if url in data.applied && load.Loads? {
        var ws := loaders(url, data.applied[url]).writes;
        assert forall id :: Touches(ws, id) ==> Publishes(loaders, url, data.applied[url], id);
        assert forall id :: Touches(load.writes, id) ==> Publishes(loaders, s.visit.source.url, body, id);
        HoldsBeside(data.rows, ws, load.writes, s.runId);
      }
    }
  }
}
