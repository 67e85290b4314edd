/**
 * Run ids are taken before the lock, so a run can commit after one with a larger id. An interleaving
 * of two runs shows what that does to the rows that the late run touches.
 */
module LateRun {
  import opened Prelude
  import opened Tables
  import opened Database
  import opened Gc
  import opened RetryPolicy
  import opened Fetcher
  import opened SyncState
  import opened Orchestrator
  import opened History
  import opened RunHistory
  import opened LockProtocol
  import opened Scenarios

  /** Two runs begin; the second takes the lock first and commits; then the first runs. */
  function LateSteps(late: Visit, early: Visit): seq<Step> {
    [Begin([late], false), Begin([early], false), TryLock(2), Work(2), Finish(2), TryLock(1), Work(1), Finish(1)]
  }

  /** What run 2 leaves behind. */
  function LateStore(env: Env, early: Visit): Store {
    RunOf(env, EMPTY_STORE, 2, [early], 1)
  }

  // ---------------------------------------------------------------- the schedule

  lemma ExecStep(env: Env, steps: seq<Step>, i: nat, grace: nat)
    requires grace >= 1 && i < |steps|
    ensures Exec(env, steps[..i + 1], grace) == Do(env, Exec(env, steps[..i], grace), steps[i], grace)
  {
    assert steps[..i + 1][..i] == steps[..i];
  }

  function Begun2(env: Env, late: Visit, early: Visit): System {
    Do(env, Do(env, INITIAL, Begin([late], false), 1), Begin([early], false), 1)
  }

  /** A transaction that takes the free lock, makes its one visit and commits. */
  function Alone(env: Env, sys: System, id: nat): System {
    Do(env, Do(env, Do(env, sys, TryLock(id), 1), Work(id), 1), Finish(id), 1)
  }

  lemma AloneCommits(env: Env, sys: System, id: nat, v: Visit)
    requires id in sys.txs && sys.txs[id] == Tx([v], false, Begun) && sys.holders == {}
    ensures var after := Alone(env, sys, id);
            && after.log == sys.log + [Winner(id, [v])] && after.holders == {}
            && forall other :: other != id && other in sys.txs ==> other in after.txs && after.txs[other] == sys.txs[other]
  {
    hide VisitSource;
    var s1 := Do(env, sys, TryLock(id), 1);
    assert s1.txs[id].phase.Working? && s1.txs[id].phase.done == 0;
    var s2 := Do(env, s1, Work(id), 1);
    assert s2.txs[id].phase.Working? && s2.txs[id].phase.done == 1 && s2.log == sys.log;
  }

  lemma LateIsEightSteps(env: Env, late: Visit, early: Visit)
    ensures Exec(env, LateSteps(late, early), 1) == Alone(env, Alone(env, Begun2(env, late, early), 2), 1)
  {
    hide Do;
    var s := LateSteps(late, early);
    ExecStep(env, s, 0, 1);
    ExecStep(env, s, 1, 1);
    ExecStep(env, s, 2, 1);
    ExecStep(env, s, 3, 1);
    ExecStep(env, s, 4, 1);
    ExecStep(env, s, 5, 1);
    ExecStep(env, s, 6, 1);
    ExecStep(env, s, 7, 1);
    assert s[..8] == s;
  }

  lemma TwoBegin(env: Env, late: Visit, early: Visit)
    ensures var begun := Begun2(env, late, early);
            && begun.txs == map[1 := Tx([late], false, Begun), 2 := Tx([early], false, Begun)]
            && begun.holders == {} && begun.log == []
  {
  }

  lemma {:induction false} LateLog(env: Env, late: Visit, early: Visit)
    ensures Exec(env, LateSteps(late, early), 1).log == [Winner(2, [early]), Winner(1, [late])]
  {
    hide Do, Alone, Begun2, LateSteps;
    var begun := Begun2(env, late, early);
    TwoBegin(env, late, early);
    AloneCommits(env, begun, 2, early);
    AloneCommits(env, Alone(env, begun, 2), 1, late);
    LateIsEightSteps(env, late, early);
    hide Exec;
    assert [] + [Winner(2, [early])] == [Winner(2, [early])];
  }

  lemma {:induction false} LateSchedule(env: Env, late: Visit, early: Visit)
    ensures var sys := Exec(env, LateSteps(late, early), 1);
            && sys.log == [Winner(2, [early]), Winner(1, [late])]
            && sys.committed == Apply(env, LateStore(env, early), Winner(1, [late]), 1)
  {
    hide Exec, LateSteps, RunOf;
    var runs := [Winner(2, [early]), Winner(1, [late])];
    LateLog(env, late, early);
    CommittedIsSequential(env, LateSteps(late, early), 1);
    AfterOneMore(env, EMPTY_STORE, runs, 0, 1);
    AfterOneMore(env, EMPTY_STORE, runs, 1, 1);
    assert runs[..0] == [] && runs[..2] == runs;
  }

  // ---------------------------------------------------------------- what becomes of the rows

  /**
   * With a grace of one run, everything the late run loads is stale in the commit that loads it. A
   * row that run 2 inserted and run 1 touches was first seen after it was last seen.
   */
  lemma LateRunIsBornStale(env: Env, late: Visit, early: Visit, id: RowId)
    requires Succeeds(env, EMPTY_STORE, Winner(2, [early]))
    requires var store := LateStore(env, early);
             Succeeds(env, store, Winner(1, [late])) && Touched(env, store, Winner(1, [late]), id)
    ensures var sys := Exec(env, LateSteps(late, early), 1);
            && sys.log == [Winner(2, [early]), Winner(1, [late])]
            && id in sys.committed.data.rows && sys.committed.data.rows[id].stale
            && (Touched(env, EMPTY_STORE, Winner(2, [early]), id) ==>
                  sys.committed.data.rows[id].firstSeen == 2 && sys.committed.data.rows[id].lastSeen == 1)
  {
    var store := LateStore(env, early);
    LateSchedule(env, late, early);
    RowAfterRun(env, EMPTY_STORE, Winner(2, [early]), 1, id);
    hide Touched, Succeeds, Exec, VisitAll;
    assert store == Apply(env, EMPTY_STORE, Winner(2, [early]), 1);
    RowAfterRun(env, store, Winner(1, [late]), 1, id);
    StaleAtOwnCommitIff(env, store, Winner(1, [late]), 1, id);
  }
}
