/**
 * Committed history: the runs that left a trace, in commit order. Dry runs, crashed runs and runs
 * rolled back for any other reason leave none, and are absent.
 */
module History {
  import opened Prelude
  import opened Database
  import opened Gc
  import opened Fetcher
  import opened Orchestrator

  /** `Winner` held the advisory lock; `Loser` did not get it. */
  datatype Run = Winner(id: nat, visits: seq<Visit>) | Loser(id: nat)

  function Apply(env: Env, store: Store, run: Run, grace: nat): Store
    requires grace >= 1
  {
    match run
    case Winner(id, visits) => RunOf(env, store, id, visits, grace)
    case Loser(id) => LostOf(store, id)
  }

  function After(env: Env, store: Store, runs: seq<Run>, grace: nat): Store
    requires grace >= 1
  {
    if runs == [] then store
    else Apply(env, After(env, store, runs[..|runs| - 1], grace), runs[|runs| - 1], grace)
  }

  lemma {:induction false} AfterOneMore(env: Env, store: Store, runs: seq<Run>, i: nat, grace: nat)
    requires grace >= 1 && i < |runs|
    ensures After(env, store, runs[..i + 1], grace) == Apply(env, After(env, store, runs[..i], grace), runs[i], grace)
  {
    assert runs[..i + 1][..i] == runs[..i];
  }

  lemma {:induction false} AfterConcat(env: Env, store: Store, a: seq<Run>, b: seq<Run>, grace: nat)
    requires grace >= 1
    ensures After(env, store, a + b, grace) == After(env, After(env, store, a, grace), b, grace)
  {
    if b == [] {
      assert a + b == a;
    } else {
      AfterConcat(env, store, a, b[..|b| - 1], grace);
      assert (a + b)[..|a + b| - 1] == a + b[..|b| - 1];
    }
  }

  /** The data just before the k-th visit of a run. */
  function DataAt(env: Env, store: Store, run: Run, k: nat): Data
    requires run.Winner? && k <= |run.visits|
  {
    VisitAll(env, store.data, run.visits[..k], run.id).data
  }

  /** GC and the status update touch neither `sync_file` nor what was applied. */
  lemma RunEndsWithItsVisits(env: Env, store: Store, run: Run, grace: nat)
    requires grace >= 1
    ensures var after := Apply(env, store, run, grace).data;
            var visited := if run.Winner? then VisitAll(env, store.data, run.visits, run.id).data else store.data;
            after.files == visited.files && after.applied == visited.applied
  {
  }
}
