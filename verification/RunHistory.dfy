/**
 * Rows over whole histories of runs: first and last sightings, staleness, grace periods.
 */
module RunHistory {
  import opened Prelude
  import opened Tables
  import opened Database
  import opened Gc
  import opened Fetcher
  import opened Orchestrator
  import opened History

  // ---------------------------------------------------------------- what one run writes

  /** All that a run does to rows before GC is to upsert its writes; rolled-back sources leave none. */
  lemma {:induction false} VisitsUpsertTheirWrites(env: Env, data: Data, visits: seq<Visit>, runId: nat)
    ensures VisitAll(env, data, visits, runId).data.rows == UpsertAll(data.rows, WritesOf(env, data, visits, runId), runId)
    decreases |visits|
  {
    if visits != [] {
      var init := visits[..|visits| - 1];
      VisitsUpsertTheirWrites(env, data, init, runId);
      var before := VisitAll(env, data, init, runId).data;
      UpsertAllConcat(data.rows, WritesOf(env, data, init, runId), VisitWrites(env, before, visits[|visits| - 1]), runId);
    }
  }

  function RunWrites(env: Env, store: Store, run: Run): seq<Write> {
    if run.Winner? then WritesOf(env, store.data, run.visits, run.id) else []
  }

  predicate Touched(env: Env, store: Store, run: Run, id: RowId) {
    Touches(RunWrites(env, store, run), id)
  }

  predicate Succeeds(env: Env, store: Store, run: Run) {
    run.Winner? && FinalStatus(CountAll(VisitAll(env, store.data, run.visits, run.id).outcomes)) == Success
  }

  function SuccessesAfter(env: Env, store: Store, run: Run): set<nat> {
    if Succeeds(env, store, run) then Successes(store.runs) + {run.id} else Successes(store.runs)
  }

  lemma SuccessesAfterRun(env: Env, store: Store, run: Run, grace: nat)
    requires grace >= 1 && run.id !in store.runs
    ensures Successes(Apply(env, store, run, grace).runs) == SuccessesAfter(env, store, run)
  {
  }

  /** The row that the source loop leaves, before GC. */
  function VisitedRows(env: Env, store: Store, run: Run): Rows {
    if run.Winner? then VisitAll(env, store.data, run.visits, run.id).data.rows else store.data.rows
  }

  lemma RowAfterVisits(env: Env, store: Store, run: Run, id: RowId)
    ensures var rows, touched := VisitedRows(env, store, run), Touched(env, store, run, id);
            && (id in rows <==> id in store.data.rows || touched)
            && (id in rows ==>
                  && rows[id].firstSeen == (if id in store.data.rows then store.data.rows[id].firstSeen else run.id)
                  && rows[id].lastSeen == (if touched then run.id else store.data.rows[id].lastSeen)
                  && rows[id].stale == (id in store.data.rows && store.data.rows[id].stale))
  {
    if run.Winner? {
      VisitsUpsertTheirWrites(env, store.data, run.visits, run.id);
      UpsertAllIsLastWins(store.data.rows, RunWrites(env, store, run), run.id, id);
      var visited := VisitedRows(env, store, run);
      assert id in visited <==> At(visited, id).Some?;
    }
  }

  lemma FlagAfterGc(rows: Rows, successes: set<nat>, grace: nat, id: RowId)
    requires grace >= 1
    ensures var after := AfterGc(rows, successes, grace);
            && after.Keys == rows.Keys
            && (id in rows ==>
                  && after[id].firstSeen == rows[id].firstSeen && after[id].lastSeen == rows[id].lastSeen
                  && after[id].stale == if |successes| >= grace then |Above(successes, rows[id].lastSeen)| >= grace
                                        else rows[id].stale)
  {
    NthLargestByCounting(successes, grace - 1);
    if |successes| >= grace && id in rows {
      StaleIffGraceRunsPassed(rows, successes, grace, id);
    }
  }

  /** The row a run leaves behind: upsert, then the flag of a GC past bootstrap. */
  lemma RowAfterRun(env: Env, store: Store, run: Run, grace: nat, id: RowId)
    requires grace >= 1 && run.id !in store.runs
    ensures var rows, touched := Apply(env, store, run, grace).data.rows, Touched(env, store, run, id);
            && Successes(Apply(env, store, run, grace).runs) == SuccessesAfter(env, store, run)
            && (id in rows <==> id in store.data.rows || touched)
            && (id in rows ==>
                  && rows[id].firstSeen == (if id in store.data.rows then store.data.rows[id].firstSeen else run.id)
                  && rows[id].lastSeen == (if touched then run.id else store.data.rows[id].lastSeen)
                  && rows[id].stale ==
                       if Succeeds(env, store, run) && |SuccessesAfter(env, store, run)| >= grace
                       then |Above(SuccessesAfter(env, store, run), rows[id].lastSeen)| >= grace
                       else id in store.data.rows && store.data.rows[id].stale)
  {
    SuccessesAfterRun(env, store, run, grace);
    RowAfterVisits(env, store, run, id);
    if Succeeds(env, store, run) {
      assert Apply(env, store, run, grace).data.rows
          == AfterGc(VisitedRows(env, store, run), SuccessesAfter(env, store, run), grace);
      FlagAfterGc(VisitedRows(env, store, run), SuccessesAfter(env, store, run), grace, id);
    } else {
      assert Apply(env, store, run, grace).data.rows == VisitedRows(env, store, run);
    }
  }

  /**
   * Whatever order runs commit in: past bootstrap, a row touched by a successful run is stale at that
   * very commit exactly when N successful runs have larger ids.
   */
  lemma StaleAtOwnCommitIff(env: Env, store: Store, run: Run, grace: nat, id: RowId)
    requires grace >= 1 && run.id !in store.runs
    requires Succeeds(env, store, run) && Touched(env, store, run, id)
    requires |Successes(store.runs)| + 1 >= grace
    ensures id in Apply(env, store, run, grace).data.rows
    ensures Apply(env, store, run, grace).data.rows[id].stale <==> |Above(Successes(store.runs), run.id)| >= grace
  {
    RowAfterRun(env, store, run, grace, id);
    assert Above(SuccessesAfter(env, store, run), run.id) == Above(Successes(store.runs), run.id);
    assert run.id !in Successes(store.runs);
  }

  // ---------------------------------------------------------------- one run, in any order

  /**
   * Whatever order runs commit in: rows stay, `first_seen_run` stays, successes are never lost, the
   * threshold never decreases, and no row turns stale before bootstrap is over.
   */
  lemma FreshRunKeeps(env: Env, store: Store, run: Run, grace: nat, id: RowId)
    requires grace >= 1 && run.id !in store.runs
    ensures var after := Apply(env, store, run, grace);
            var was, now := NthLargest(Successes(store.runs), grace - 1), NthLargest(Successes(after.runs), grace - 1);
            && (id in store.data.rows ==>
                  id in after.data.rows && after.data.rows[id].firstSeen == store.data.rows[id].firstSeen)
            && Successes(store.runs) <= Successes(after.runs)
            && (was.Some? ==> now.Some? && was.value <= now.value)
            && (|Successes(after.runs)| < grace && id in after.data.rows && after.data.rows[id].stale ==>
                  id in store.data.rows && store.data.rows[id].stale)
  {
    RowAfterRun(env, store, run, grace, id);
    hide Apply, Touched, Succeeds, Above;
    var after := Apply(env, store, run, grace);
    if NthLargest(Successes(store.runs), grace - 1).Some? {
      ThresholdNeverDecreases(Successes(store.runs), Successes(after.runs), grace);
    }
  }

  /** A run keeps `first_seen_run <= last_seen_run` for a row exactly if it does not touch it or has no smaller id. */
  lemma FirstBeforeLastIff(env: Env, store: Store, run: Run, grace: nat, id: RowId)
    requires grace >= 1 && run.id !in store.runs
    requires id in store.data.rows && store.data.rows[id].firstSeen <= store.data.rows[id].lastSeen
    ensures id in Apply(env, store, run, grace).data.rows
    ensures var row := Apply(env, store, run, grace).data.rows[id];
            row.firstSeen <= row.lastSeen <==> !Touched(env, store, run, id) || store.data.rows[id].firstSeen <= run.id
  {
    RowAfterRun(env, store, run, grace, id);
  }

  // ---------------------------------------------------------------- reachable states

  ghost predicate InIdOrder(runs: seq<Run>) {
    forall i, j :: 0 <= i < j < |runs| ==> runs[i].id < runs[j].id
  }

  function Reached(env: Env, runs: seq<Run>, n: nat, grace: nat): Store
    requires grace >= 1 && n <= |runs|
  {
    After(env, EMPTY_STORE, runs[..n], grace)
  }

  lemma ReachedStep(env: Env, runs: seq<Run>, n: nat, grace: nat)
    requires grace >= 1 && n < |runs|
    ensures Reached(env, runs, n + 1, grace) == Apply(env, Reached(env, runs, n, grace), runs[n], grace)
  {
    AfterOneMore(env, EMPTY_STORE, runs, n, grace);
  }

  ghost predicate Sound(store: Store, grace: nat, bound: nat) {
    && (forall r :: r in store.runs ==> r < bound)
    && (forall id :: id in store.data.rows ==>
          store.data.rows[id].firstSeen <= store.data.rows[id].lastSeen < bound)
    && (|Successes(store.runs)| < grace ==> forall id :: id in store.data.rows ==> !store.data.rows[id].stale)
  }

  /** In id order: `first_seen_run <= last_seen_run` in every reachable state; no stale row before bootstrap is over. */
  lemma {:induction false} ReachedIsSound(env: Env, runs: seq<Run>, n: nat, grace: nat, bound: nat)
    requires grace >= 1 && n <= |runs| && InIdOrder(runs)
    requires n > 0 ==> runs[n - 1].id < bound
    ensures Sound(Reached(env, runs, n, grace), grace, bound)
  {
    if n > 0 {
      var run := runs[n - 1];
      assert n - 1 > 0 ==> runs[n - 2].id < run.id;
      ReachedIsSound(env, runs, n - 1, grace, run.id);
      ReachedStep(env, runs, n - 1, grace);
      var before, after := Reached(env, runs, n - 1, grace), Reached(env, runs, n, grace);
      SubsetSize(Successes(before.runs), SuccessesAfter(env, before, run));
      forall id | id in after.data.rows
        ensures after.data.rows[id].firstSeen <= after.data.rows[id].lastSeen < bound
        ensures |Successes(after.runs)| < grace ==> !after.data.rows[id].stale
      {
        RowAfterRun(env, before, run, grace, id);
      }
    } else {
      assert Successes(EMPTY_STORE.runs) == {};
      assert runs[..0] == [];
    }
  }

  ghost predicate DistinctIds(runs: seq<Run>) {
    forall i, j :: 0 <= i < j < |runs| ==> runs[i].id != runs[j].id
  }

  lemma {:induction false} ReachedIdsAreRunIds(env: Env, runs: seq<Run>, n: nat, grace: nat, r: nat)
    requires grace >= 1 && n <= |runs| && r in Reached(env, runs, n, grace).runs
    ensures exists i :: 0 <= i < n && runs[i].id == r
  {
    assert runs[..0] == [];
    if n > 0 {
      ReachedStep(env, runs, n - 1, grace);
      if r != runs[n - 1].id {
        ReachedIdsAreRunIds(env, runs, n - 1, grace, r);
      }
    }
  }

  lemma RunIdIsFresh(env: Env, runs: seq<Run>, n: nat, grace: nat)
    requires grace >= 1 && n < |runs| && DistinctIds(runs)
    ensures runs[n].id !in Reached(env, runs, n, grace).runs
  {
    if runs[n].id in Reached(env, runs, n, grace).runs {
      ReachedIdsAreRunIds(env, runs, n, grace, runs[n].id);
    }
  }

  /** In any commit order: rows are never removed and `first_seen_run` never changes. */
  lemma {:induction false} FirstSeenNeverChanges(env: Env, runs: seq<Run>, i: nat, j: nat, grace: nat, id: RowId)
    requires grace >= 1 && i <= j <= |runs| && DistinctIds(runs)
    requires id in Reached(env, runs, i, grace).data.rows
    ensures id in Reached(env, runs, j, grace).data.rows
    ensures Reached(env, runs, j, grace).data.rows[id].firstSeen == Reached(env, runs, i, grace).data.rows[id].firstSeen
    decreases j - i
  {
    hide After, Apply, Successes;
    if i < j {
      FirstSeenNeverChanges(env, runs, i, j - 1, grace, id);
      RunIdIsFresh(env, runs, j - 1, grace);
      ReachedStep(env, runs, j - 1, grace);
      FreshRunKeeps(env, Reached(env, runs, j - 1, grace), runs[j - 1], grace, id);
    }
  }

  /** In any commit order: the threshold never decreases. */
  lemma {:induction false} ThresholdOnlyRises(env: Env, runs: seq<Run>, i: nat, j: nat, grace: nat)
    requires grace >= 1 && i <= j <= |runs| && DistinctIds(runs)
    requires NthLargest(Successes(Reached(env, runs, i, grace).runs), grace - 1).Some?
    ensures var was, now := NthLargest(Successes(Reached(env, runs, i, grace).runs), grace - 1),
                             NthLargest(Successes(Reached(env, runs, j, grace).runs), grace - 1);
            now.Some? && was.value <= now.value
    decreases j - i
  {
    hide After, Apply, Successes, NthLargest;
    if i < j {
      ThresholdOnlyRises(env, runs, i, j - 1, grace);
      RunIdIsFresh(env, runs, j - 1, grace);
      ReachedStep(env, runs, j - 1, grace);
      FreshRunKeeps(env, Reached(env, runs, j - 1, grace), runs[j - 1], grace, RowId(Inetnum, []));
    }
  }

  // ---------------------------------------------------------------- the grace period

  /** How many of the runs from `lo` up to `hi`, excluded, succeeded. */
  function SuccessCount(env: Env, runs: seq<Run>, lo: nat, hi: nat, grace: nat): nat
    requires grace >= 1 && lo <= hi <= |runs|
    decreases hi
  {
    if lo == hi then 0
    else SuccessCount(env, runs, lo, hi - 1, grace)
         + if Succeeds(env, Reached(env, runs, hi - 1, grace), runs[hi - 1]) then 1 else 0
  }

  lemma {:induction false} AboveIsSuccessCount(env: Env, runs: seq<Run>, i: nat, j: nat, grace: nat)
    requires grace >= 1 && i < j <= |runs| && InIdOrder(runs)
    ensures |Above(Successes(Reached(env, runs, j, grace).runs), runs[i].id)| == SuccessCount(env, runs, i + 1, j, grace)
    decreases j - i
  {
    hide After, Apply, Succeeds, Above, Reached;
    var run, before := runs[j - 1], Reached(env, runs, j - 1, grace);
    ReachedIsSound(env, runs, j - 1, grace, run.id);
    ReachedStep(env, runs, j - 1, grace);
    SuccessesAfterRun(env, before, run, grace);
    if i < j - 1 {
      AboveIsSuccessCount(env, runs, i, j - 1, grace);
    }
    AboveAfterRun(env, before, run, runs[i].id);
  }

  lemma AboveAfterRun(env: Env, store: Store, run: Run, bound: nat)
    requires forall r :: r in store.runs ==> r < run.id
    requires bound <= run.id
    ensures |Above(SuccessesAfter(env, store, run), bound)|
         == if bound == run.id then 0 else |Above(Successes(store.runs), bound)| + if Succeeds(env, store, run) then 1 else 0
  {
    var was := Successes(store.runs);
    if bound == run.id {
      assert Above(SuccessesAfter(env, store, run), bound) == {};
    } else if Succeeds(env, store, run) {
      assert run.id !in Above(was, bound);
      assert Above(was + {run.id}, bound) == Above(was, bound) + {run.id};
    }
  }

  /** One run of the two theorems below. */
  lemma RowThroughRun(env: Env, runs: seq<Run>, j: nat, grace: nat, id: RowId)
    requires grace >= 1 && j < |runs| && InIdOrder(runs)
    requires id in Reached(env, runs, j, grace).data.rows
    ensures var before, after, run := Reached(env, runs, j, grace), Reached(env, runs, j + 1, grace), runs[j];
            var was, now := before.data.rows[id], Successes(after.runs);
            && id in after.data.rows
            && Successes(before.runs) <= now
            && (if Succeeds(env, before, run) then run.id in now else now == Successes(before.runs))
            && was.lastSeen < run.id
            && after.data.rows[id].lastSeen == (if Touched(env, before, run, id) then run.id else was.lastSeen)
            && after.data.rows[id].stale ==
                 if Succeeds(env, before, run) && |now| >= grace
                 then |Above(now, after.data.rows[id].lastSeen)| >= grace else was.stale
  {
    ReachedIsSound(env, runs, j, grace, runs[j].id);
    ReachedStep(env, runs, j, grace);
    RowAfterRun(env, Reached(env, runs, j, grace), runs[j], grace, id);
  }

  lemma LiveStep(
    was: set<nat>, now: set<nat>, bound: nat, lastSeen: nat, staleBefore: bool, stale: bool, succeeded: bool, grace: nat)
    requires was <= now && (!succeeded ==> now == was) && lastSeen >= bound
    requires stale == if succeeded && |now| >= grace then |Above(now, lastSeen)| >= grace else staleBefore
    requires |Above(was, bound)| < grace ==> !staleBefore
    ensures |Above(now, bound)| < grace ==> !stale
    ensures lastSeen == bound && staleBefore == (|Above(was, bound)| >= grace) ==> stale == (|Above(now, bound)| >= grace)
  {
    SubsetSize(Above(now, lastSeen), Above(now, bound));
    SubsetSize(Above(was, bound), Above(now, bound));
    SubsetSize(Above(now, bound), now);
  }

  lemma {:induction false} LiveAtItsCommit(env: Env, runs: seq<Run>, i: nat, grace: nat, id: RowId)
    requires grace >= 1 && i < |runs| && InIdOrder(runs)
    requires Succeeds(env, Reached(env, runs, i, grace), runs[i])
    requires Touched(env, Reached(env, runs, i, grace), runs[i], id)
    ensures var rows := Reached(env, runs, i + 1, grace).data.rows;
            id in rows && rows[id].lastSeen == runs[i].id && !rows[id].stale
  {
    ReachedIsSound(env, runs, i, grace, runs[i].id);
    ReachedIsSound(env, runs, i + 1, grace, runs[i].id + 1);
    ReachedStep(env, runs, i, grace);
    var before := Reached(env, runs, i, grace);
    RowAfterRun(env, before, runs[i], grace, id);
    assert Above(SuccessesAfter(env, before, runs[i]), runs[i].id) == {};
  }

  /** Touched by a successful run: live until at least N later runs have succeeded. */
  lemma {:induction false} LiveForTheGracePeriod(env: Env, runs: seq<Run>, i: nat, j: nat, grace: nat, id: RowId)
    requires grace >= 1 && i < j <= |runs| && InIdOrder(runs)
    requires Succeeds(env, Reached(env, runs, i, grace), runs[i])
    requires Touched(env, Reached(env, runs, i, grace), runs[i], id)
    ensures var rows := Reached(env, runs, j, grace).data.rows;
            && id in rows && rows[id].lastSeen >= runs[i].id
            && (SuccessCount(env, runs, i + 1, j, grace) < grace ==> !rows[id].stale)
    decreases j - i
  {
    hide *;
    if j == i + 1 {
      LiveAtItsCommit(env, runs, i, grace, id);
    } else {
      LiveForTheGracePeriod(env, runs, i, j - 1, grace, id);
      GraceStep(env, runs, i, j - 1, grace, id);
    }
  }

  lemma GraceStep(env: Env, runs: seq<Run>, i: nat, j: nat, grace: nat, id: RowId)
    requires grace >= 1 && i < j < |runs| && InIdOrder(runs)
    requires var rows := Reached(env, runs, j, grace).data.rows;
             && id in rows && rows[id].lastSeen >= runs[i].id
             && (SuccessCount(env, runs, i + 1, j, grace) < grace ==> !rows[id].stale)
    ensures var was, rows := Reached(env, runs, j, grace).data.rows, Reached(env, runs, j + 1, grace).data.rows;
            && id in rows && rows[id].lastSeen >= runs[i].id
            && (SuccessCount(env, runs, i + 1, j + 1, grace) < grace ==> !rows[id].stale)
            && (!Touched(env, Reached(env, runs, j, grace), runs[j], id)
                && was[id].lastSeen == runs[i].id
                && was[id].stale == (SuccessCount(env, runs, i + 1, j, grace) >= grace) ==>
                  rows[id].lastSeen == runs[i].id
                  && rows[id].stale == (SuccessCount(env, runs, i + 1, j + 1, grace) >= grace))
  {
    hide After, Apply, Reached, Succeeds, Touched, Above, SuccessCount, InIdOrder, Successes;
    RowThroughRun(env, runs, j, grace, id);
    AboveIsSuccessCount(env, runs, i, j, grace);
    AboveIsSuccessCount(env, runs, i, j + 1, grace);
    var before, after := Reached(env, runs, j, grace), Reached(env, runs, j + 1, grace);
    LiveStep(Successes(before.runs), Successes(after.runs), runs[i].id, after.data.rows[id].lastSeen,
             before.data.rows[id].stale, after.data.rows[id].stale, Succeeds(env, before, runs[j]), grace);
  }

  ghost predicate UntouchedBetween(env: Env, runs: seq<Run>, lo: nat, hi: nat, grace: nat, id: RowId)
    requires grace >= 1 && hi <= |runs|
  {
    forall k :: lo <= k < hi ==> !Touched(env, Reached(env, runs, k, grace), runs[k], id)
  }

  /** Not touched again: stale exactly when N later runs have succeeded. */
  lemma {:induction false} ExpiresExactlyAfterGrace(env: Env, runs: seq<Run>, i: nat, j: nat, grace: nat, id: RowId)
    requires grace >= 1 && i < j <= |runs| && InIdOrder(runs)
    requires Succeeds(env, Reached(env, runs, i, grace), runs[i])
    requires Touched(env, Reached(env, runs, i, grace), runs[i], id)
    requires UntouchedBetween(env, runs, i + 1, j, grace, id)
    ensures var rows := Reached(env, runs, j, grace).data.rows;
            && id in rows && rows[id].lastSeen == runs[i].id
            && (rows[id].stale <==> SuccessCount(env, runs, i + 1, j, grace) >= grace)
    decreases j - i
  {
    hide After, Apply, Touches, RunWrites, Succeeds;
    if j == i + 1 {
      LiveAtItsCommit(env, runs, i, grace, id);
    } else {
      ExpiresExactlyAfterGrace(env, runs, i, j - 1, grace, id);
      assert !Touched(env, Reached(env, runs, j - 1, grace), runs[j - 1], id);
      GraceStep(env, runs, i, j - 1, grace, id);
    }
  }
}
