/**
 * One sync run: the per-source savepoint, the counters, the final status, GC, commit or rollback.
 */
module Orchestrator {
  import opened Prelude
  import opened Tables
  import opened Database
  import opened Gc
  import opened RetryPolicy
  import opened Download
  import opened Fetcher
  import opened SyncState

  /** What parse plus ETL of a downloaded body does: raise, or upsert rows. */
  datatype Load = Raises | Loads(writes: seq<Write>)

  /**
   * One source in one run. `fault` stands for any exception other than an ETL failure
   * (the disk, the database) raised somewhere inside the savepoint.
   */
  datatype Visit = Visit(source: Source, server: Server, load: Bytes -> Load, fault: bool, now: nat)

  datatype SourceOutcome = Raised | Returned(status: FetchStatus)

  predicate Supported(format: Format) {
    format in {Delegated, Rpsl, RpslGz, RpslSplitGz}
  }

  // ---------------------------------------------------------------- one source

  datatype Visited = Visited(data: Data, outcome: SourceOutcome)

  function FetchIn(env: Env, data: Data, v: Visit): FetchResult {
    FetchOf(env, v.source, PreviousOf(env, data.files, v.source.url), v.server)
  }

  function BodyIn(env: Env, data: Data, v: Visit): Option<Bytes> {
    FetchedBody(env, v.source, PreviousOf(env, data.files, v.source.url), v.server)
  }

  /** ETL runs on a new or updated body in a supported format. */
  predicate RunsEtl(env: Env, data: Data, v: Visit) {
    FetchIn(env, data, v).status in {New, Updated} && BodyIn(env, data, v).Some? && Supported(v.source.format)
  }

  function VisitSource(env: Env, data: Data, v: Visit, runId: nat): Visited {
    var r := FetchIn(env, data, v);
    var files := Written(env, data.files, v.source, r, runId, v.now);
    if v.fault then Visited(data, Raised)
    else if !RunsEtl(env, data, v) then Visited(data.(files := files), Returned(r.status))
    else
      var body := BodyIn(env, data, v).value;
      match v.load(body)
      case Raises => Visited(data, Raised)
      case Loads(writes) =>
        Visited(Data(Parsed(files, v.source.url, v.now), UpsertAll(data.rows, writes, runId),
                     data.applied[v.source.url := body]),
                Returned(r.status))
  }

  /**
   * A visit told by format names. New bodies of the four formats with a parser are loaded and applied,
   * and the parse time moves; a body in the `Md5` format is only recorded; everything else changes
   * the `sync_file` row alone.
   */
  lemma VisitByFormat(env: Env, data: Data, v: Visit, runId: nat)
    ensures var visited, url, format := VisitSource(env, data, v, runId), v.source.url, v.source.format;
            var loads := format == Delegated || format == Rpsl || format == RpslGz || format == RpslSplitGz;
            && (loads <==> format != Format.Md5)
            && (visited.outcome in {Returned(New), Returned(Updated)} && format != Format.Md5 ==>
                  && BodyIn(env, data, v).Some?
                  && var body := BodyIn(env, data, v).value;
                     && v.load(body).Loads?
                     && url in visited.data.applied && visited.data.applied == data.applied[url := body]
                     && visited.data.rows == UpsertAll(data.rows, v.load(body).writes, runId)
                     && url in visited.data.files && visited.data.files[url].lastParsedAt == Some(v.now))
            && (visited.outcome in {Returned(Unchanged), Returned(Error)} || format == Format.Md5 ==>
                  visited.data.rows == data.rows && visited.data.applied == data.applied)
            && (visited.outcome.Raised? ==> visited.data == data)
            && (visited.outcome.Raised? <==>
                  || v.fault
                  || (format != Format.Md5 && FetchIn(env, data, v).status in {New, Updated}
                      && v.load(BodyIn(env, data, v).GetOr([])).Raises?))
            && (visited.outcome.Returned? ==> visited.outcome.status == FetchIn(env, data, v).status)
  {
    hide FetchedBody, UpsertAll, PayloadFor, Policy, SidecarOf;
    ResultDescribesBody(env, v.source, PreviousOf(env, data.files, v.source.url), v.server);
    assert FetchIn(env, data, v).url == v.source.url;
  }

  /** The rows that a visit upserts. */
  function VisitWrites(env: Env, data: Data, v: Visit): seq<Write> {
    if v.fault || !RunsEtl(env, data, v) then []
    else
      match v.load(BodyIn(env, data, v).value)
      case Raises => []
      case Loads(writes) => writes
  }

  /** Inserted and updated rows, as the ETL of the visit counts them. */
  function VisitSums(env: Env, data: Data, v: Visit, runId: nat): EtlSums {
    SumsOf(data.rows, VisitWrites(env, data, v), runId)
  }

  /** `_run_one_source` inside `session.begin_nested()`. */
  method RunOneSource(db: Db, dir: CacheDir, env: Env, v: Visit, runId: nat)
    returns (outcome: SourceOutcome, sums: EtlSums)
    modifies db`files, db`rows, db`applied, dir
    ensures Visited(db.Contents(), outcome) == VisitSource(env, old(db.Contents()), v, runId)
    ensures sums == VisitSums(env, old(db.Contents()), v, runId)
    ensures outcome.Raised? ==> db.Contents() == old(db.Contents())
  {
    var savedFiles, savedRows := db.files, db.rows;
    ghost var savedApplied := db.applied;
    var previous := ReadPreviousState(db, env, v.source.url);
    var result := Fetch(dir, env, v.source, previous, v.server);
    ResultDescribesBody(env, v.source, previous, v.server);
    WriteResult(db, env, v.source, result, runId, v.now);
    if v.fault {
      db.files := savedFiles;
      return Raised, NO_SUMS;
    }
    if result.status !in {New, Updated} {
      return Returned(result.status), NO_SUMS;
    }
    if result.localPath.None? {
      return Returned(result.status), NO_SUMS;
    }
    if !Supported(v.source.format) {
      return Returned(result.status), NO_SUMS;
    }
    var body := dir.target[v.source.url];
    var load := v.load(body);
    if load.Raises? {
      db.files := savedFiles;
      return Raised, NO_SUMS;
    }
    sums := SumsOf(db.rows, load.writes, runId);
    db.rows := UpsertAll(db.rows, load.writes, runId);
    db.applied := db.applied[v.source.url := body];
    MarkParsed(db, v.source.url, v.now);
    return Returned(result.status), sums;
  }

  // ---------------------------------------------------------------- counters and status

  datatype Counts = Counts(total: nat, fetchedNew: nat, fetchedUpdated: nat, same: nat, errored: nat)

  const NO_COUNTS := Counts(0, 0, 0, 0, 0)

  function Counted(c: Counts, outcome: SourceOutcome): Counts {
    match outcome
    case Raised => c.(errored := c.errored + 1)
    case Returned(New) => c.(total := c.total + 1, fetchedNew := c.fetchedNew + 1)
    case Returned(Updated) => c.(total := c.total + 1, fetchedUpdated := c.fetchedUpdated + 1)
    case Returned(Unchanged) => c.(total := c.total + 1, same := c.same + 1)
    case Returned(Error) => c.(total := c.total + 1, errored := c.errored + 1)
  }

  function CountAll(outcomes: seq<SourceOutcome>): Counts {
    if outcomes == [] then NO_COUNTS
    else Counted(CountAll(outcomes[..|outcomes| - 1]), outcomes[|outcomes| - 1])
  }

  /** `_Counters`, updated in place. */
  class Counters {
    var totalSources: nat
    var filesFetchedNew: nat
    var filesFetchedUpdated: nat
    var filesUnchanged: nat
    var filesErrored: nat
    var inserted: map<Table, nat>
    var updated: map<Table, nat>

    constructor ()
      ensures Value() == NO_COUNTS && Sums() == NO_SUMS
    {
      totalSources, filesFetchedNew, filesFetchedUpdated, filesUnchanged, filesErrored := 0, 0, 0, 0, 0;
      inserted, updated := map[], map[];
    }

    function Sums(): EtlSums
      reads this
    {
      EtlSums(inserted, updated)
    }

    function Value(): Counts
      reads this
    {
      Counts(totalSources, filesFetchedNew, filesFetchedUpdated, filesUnchanged, filesErrored)
    }

    method Add(status: FetchStatus, sums: EtlSums)
      modifies this
      ensures Value() == Counted(old(Value()), Returned(status))
      ensures inserted == Summed(old(inserted), sums.inserted) && updated == Summed(old(updated), sums.updated)
    {
      inserted, updated := Summed(inserted, sums.inserted), Summed(updated, sums.updated);
      totalSources := totalSources + 1;
      match status {
        case New => filesFetchedNew := filesFetchedNew + 1;
        case Updated => filesFetchedUpdated := filesFetchedUpdated + 1;
        case Unchanged => filesUnchanged := filesUnchanged + 1;
        case Error => filesErrored := filesErrored + 1;
      }
    }

    method AddRaised()
      modifies this
      ensures Value() == Counted(old(Value()), Raised) && Sums() == old(Sums())
    {
      filesErrored := filesErrored + 1;
    }
  }

  function FinalStatus(c: Counts): RunStatus {
    if c.total > 0 && c.errored == c.total then Failed else Success
  }

  /** How many outcomes are of a kind. */
  function HowMany(outcomes: seq<SourceOutcome>, kind: SourceOutcome): nat {
    if outcomes == [] then 0
    else HowMany(outcomes[..|outcomes| - 1], kind) + if outcomes[|outcomes| - 1] == kind then 1 else 0
  }

  lemma {:induction false} CountersAddUp(outcomes: seq<SourceOutcome>)
    ensures var c := CountAll(outcomes);
            && c.fetchedNew == HowMany(outcomes, Returned(New))
            && c.fetchedUpdated == HowMany(outcomes, Returned(Updated))
            && c.same == HowMany(outcomes, Returned(Unchanged))
            && c.errored == HowMany(outcomes, Returned(Error)) + HowMany(outcomes, Raised)
            && c.fetchedNew + c.fetchedUpdated + c.same + c.errored == |outcomes|
            && c.total + HowMany(outcomes, Raised) == |outcomes|
  {
    if outcomes != [] {
      CountersAddUp(outcomes[..|outcomes| - 1]);
    }
  }

  /** Failed exactly when some source returned and as many raised as returned without error. */
  lemma FailedIffRaisedBalancesClean(outcomes: seq<SourceOutcome>)
    ensures var raised := HowMany(outcomes, Raised);
            var returned := |outcomes| - raised;
            FinalStatus(CountAll(outcomes)) == Failed
            <==> returned > 0 && raised == returned - HowMany(outcomes, Returned(Error))
  {
    CountersAddUp(outcomes);
  }

  /** The documented status: failed when there were sources and none of them came through. */
  function DocumentedStatus(outcomes: seq<SourceOutcome>): RunStatus {
    if outcomes != [] && HowMany(outcomes, Raised) + HowMany(outcomes, Returned(Error)) == |outcomes|
    then Failed else Success
  }

  /**
   * The computed status is the documented one exactly when the sources that raised are not as many
   * as a non-zero number of clean ones, and, if no source came through, none raised.
   */
  lemma StatusAsDocumentedIff(outcomes: seq<SourceOutcome>)
    ensures var raised, clean := HowMany(outcomes, Raised),
                                 |outcomes| - HowMany(outcomes, Raised) - HowMany(outcomes, Returned(Error));
            FinalStatus(CountAll(outcomes)) == DocumentedStatus(outcomes)
            <==> if clean == 0 then raised == 0 else raised != clean
  {
    CountersAddUp(outcomes);
  }

  // ---------------------------------------------------------------- all sources

  datatype Progress = Progress(data: Data, outcomes: seq<SourceOutcome>)

  /** The source loop after the given visits. */
  function VisitAll(env: Env, data: Data, visits: seq<Visit>, runId: nat): Progress
    decreases |visits|
  {
    if visits == [] then Progress(data, [])
    else
      var before := VisitAll(env, data, visits[..|visits| - 1], runId);
      var last := VisitSource(env, before.data, visits[|visits| - 1], runId);
      Progress(last.data, before.outcomes + [last.outcome])
  }

  lemma {:induction false} OneOutcomePerVisit(env: Env, data: Data, visits: seq<Visit>, runId: nat)
    ensures |VisitAll(env, data, visits, runId).outcomes| == |visits|
    decreases |visits|
  {
    if visits != [] {
      OneOutcomePerVisit(env, data, visits[..|visits| - 1], runId);
    }
  }

  /** The rows that the source loop upserts; rolled-back sources have none. */
  function WritesOf(env: Env, data: Data, visits: seq<Visit>, runId: nat): seq<Write>
    decreases |visits|
  {
    if visits == [] then []
    else
      var init := visits[..|visits| - 1];
      WritesOf(env, data, init, runId) + VisitWrites(env, VisitAll(env, data, init, runId).data, visits[|visits| - 1])
  }

  lemma VisitsOneMore(env: Env, data: Data, visits: seq<Visit>, i: nat, runId: nat)
    requires i < |visits|
    ensures var before := VisitAll(env, data, visits[..i], runId);
            var last := VisitSource(env, before.data, visits[i], runId);
            && VisitAll(env, data, visits[..i + 1], runId) == Progress(last.data, before.outcomes + [last.outcome])
            && WritesOf(env, data, visits[..i + 1], runId)
               == WritesOf(env, data, visits[..i], runId) + VisitWrites(env, before.data, visits[i])
  {
    assert visits[..i + 1][..i] == visits[..i];
  }

  /** A visit's counts: inserted is the growth of every table, inserted plus updated the rows it upserts. */
  lemma VisitIsTallied(env: Env, data: Data, v: Visit, runId: nat)
    ensures var sums := VisitSums(env, data, v, runId);
            Tallied(sums.inserted, sums.updated, data.rows, VisitSource(env, data, v, runId).data.rows, VisitWrites(env, data, v))
    ensures VisitSource(env, data, v, runId).outcome.Raised? ==> VisitSums(env, data, v, runId) == NO_SUMS
  {
    SumsAreTallied(data.rows, VisitWrites(env, data, v), runId);
    hide SumsOf, UpsertAll, Tallied, FetchOf, FetchedBody;
    NothingWritten(data.rows, runId);
  }

  lemma NothingWritten(rows: Rows, runId: nat)
    ensures UpsertAll(rows, [], runId) == rows && SumsOf(rows, [], runId) == NO_SUMS
  {
  }

  /** The source loop of `run_sync`. The counters add up to the growth of the tables over the whole loop. */
  method VisitSources(db: Db, dir: CacheDir, env: Env, visits: seq<Visit>, runId: nat)
    returns (counts: Counts, sums: EtlSums)
    modifies db`files, db`rows, db`applied, dir
    ensures var progress := VisitAll(env, old(db.Contents()), visits, runId);
            db.Contents() == progress.data && counts == CountAll(progress.outcomes)
    ensures Tallied(sums.inserted, sums.updated, old(db.rows), db.rows, WritesOf(env, old(db.Contents()), visits, runId))
  {
    hide VisitSource, VisitWrites, VisitSums, Tallied, VisitAll, WritesOf, Summed;
    ghost var before := db.Contents();
    var counters := new Counters();
    ghost var outcomes: seq<SourceOutcome> := [];
    NothingVisited(env, before, runId);
    assert visits[..0] == [];
    for i := 0 to |visits|
      invariant fresh(counters)
      invariant Progress(db.Contents(), outcomes) == VisitAll(env, before, visits[..i], runId)
      invariant counters.Value() == CountAll(outcomes)
      invariant Tallied(counters.inserted, counters.updated, before.rows, db.rows, WritesOf(env, before, visits[..i], runId))
    {
      VisitsOneMore(env, before, visits, i, runId);
      ghost var mid := db.Contents();
      VisitIsTallied(env, mid, visits[i], runId);
      var outcome, sums := RunOneSource(db, dir, env, visits[i], runId);
      TalliedInSequence(counters.Sums(), sums, before.rows, mid.rows, db.rows,
                        WritesOf(env, before, visits[..i], runId), VisitWrites(env, mid, visits[i]));
      CountOneMore(outcomes, outcome);
      if outcome.Returned? {
        counters.Add(outcome.status, sums);
      } else {
        SummedWithNothing(counters.Sums());
        counters.AddRaised();
      }
      outcomes := outcomes + [outcome];
    }
    assert visits[..|visits|] == visits;
    return counters.Value(), counters.Sums();
  }

  lemma CountOneMore(outcomes: seq<SourceOutcome>, last: SourceOutcome)
    ensures CountAll([]) == NO_COUNTS
    ensures CountAll(outcomes + [last]) == Counted(CountAll(outcomes), last)
  {
    assert (outcomes + [last])[..|outcomes|] == outcomes;
  }

  lemma NothingVisited(env: Env, data: Data, runId: nat)
    ensures VisitAll(env, data, [], runId) == Progress(data, []) && WritesOf(env, data, [], runId) == []
    ensures Tallied(map[], map[], data.rows, data.rows, [])
  {
    NothingTallied(data.rows);
  }

  lemma SummedWithNothing(sums: EtlSums)
    ensures Summed(sums.inserted, map[]) == sums.inserted && Summed(sums.updated, map[]) == sums.updated
  {
  }

  // ---------------------------------------------------------------- run_sync

  /** The transaction at the end of the source loop: status first, then GC if it is a success. */
  function Finished(store: Store, progress: Progress, runId: nat, grace: nat): Store
    requires grace >= 1
  {
    var status := FinalStatus(CountAll(progress.outcomes));
    var runs := store.runs[runId := status];
    if status == Success
    then Store(runs, progress.data.(rows := AfterGc(progress.data.rows, Successes(runs), grace)))
    else Store(runs, progress.data)
  }

  /** A committed run that held the lock. */
  function RunOf(env: Env, store: Store, runId: nat, visits: seq<Visit>, grace: nat): Store
    requires grace >= 1
  {
    Finished(store, VisitAll(env, store.data, visits, runId), runId, grace)
  }

  /** A committed run that did not get the lock. */
  function LostOf(store: Store, runId: nat): Store {
    store.(runs := store.runs[runId := Failed])
  }

  datatype Summary = Summary(runId: nat, status: RunStatus, counts: Counts, etl: EtlSums, gc: GcStats)

  /** The GC part of a summary when GC did not run. */
  function NoGc(grace: nat): GcStats {
    GcStats(grace, None, map[], map[], 0)
  }

  method RunSync(
    db: Db, dir: CacheDir, env: Env, runId: nat, gotLock: bool, visits: seq<Visit>, grace: nat,
    dryRun: bool, infrastructureFault: bool, now: int)
    returns (summary: Summary)
    requires grace >= 1
    modifies db, dir
    ensures db.State() ==
            if infrastructureFault then old(db.State())
            else if !gotLock then LostOf(old(db.State()), runId)
            else if dryRun then old(db.State())
            else RunOf(env, old(db.State()), runId, visits, grace)
    ensures gotLock && !infrastructureFault ==>
              var progress := VisitAll(env, old(db.Contents()), visits, runId);
              summary.runId == runId && summary.counts == CountAll(progress.outcomes) && summary.status == FinalStatus(summary.counts)
              && Tallied(summary.etl.inserted, summary.etl.updated, old(db.rows), progress.data.rows,
                         WritesOf(env, old(db.Contents()), visits, runId)) &&
              var successes := Successes(old(db.runs)[runId := summary.status]);
              && (if summary.status == Success
                  then Reports(summary.gc, grace, successes, progress.data.rows, old(db.cache), now)
                  else summary.gc == NoGc(grace))
              && db.cache == (if summary.status == Success && !dryRun
                              then CacheAfterGc(old(db.cache), successes, grace, now) else old(db.cache))
    ensures !gotLock || infrastructureFault ==>
              db.cache == old(db.cache) &&
              summary == Summary(if infrastructureFault then 0 else runId, Failed, NO_COUNTS, NO_SUMS, NoGc(grace))
  {
    hide VisitSource, AfterGc, Noted, NthLargest, VisitAll, CountAll, Successes, Reports, CacheAfterGc, WritesOf, Tallied;
    var savedRuns, savedFiles, savedRows, savedCache := db.runs, db.files, db.rows, db.cache;
    ghost var savedApplied := db.applied;
    ghost var before := db.State();
    var gcStats := NoGc(grace);
    db.runs := db.runs[runId := Running];
    if !gotLock {
      db.runs := db.runs[runId := Failed];
      if infrastructureFault {
        db.runs := savedRuns;
        return Summary(0, Failed, NO_COUNTS, NO_SUMS, gcStats);
      }
      assert db.runs == savedRuns[runId := Failed];
      return Summary(runId, Failed, NO_COUNTS, NO_SUMS, gcStats);
    }
    var counts, sums := VisitSources(db, dir, env, visits, runId);
    var status := if counts.total > 0 && counts.errored == counts.total then Failed else Success;
    db.runs := db.runs[runId := status];
    assert db.runs == savedRuns[runId := status];
    if status == Success {
      gcStats := RunGc(db, grace, now);
    }
    if infrastructureFault || dryRun {
      db.runs, db.files, db.rows, db.cache := savedRuns, savedFiles, savedRows, savedCache;
      db.applied := savedApplied;
    }
    if infrastructureFault {
      return Summary(0, Failed, NO_COUNTS, NO_SUMS, NoGc(grace));
    }
    return Summary(runId, status, counts, sums, gcStats);
  }
}
