/**
 * Any number of run transactions, interleaved step by step.
 *
 * A transaction inserts its `sync_run` row (which takes an id from the sequence), tries the advisory
 * lock, visits its sources one at a time, and commits or rolls back. Until then the others see
 * nothing of it. The lock is released by the commit or the rollback.
 */
module LockProtocol {
  import opened Prelude
  import opened Tables
  import opened Database
  import opened Gc
  import opened Fetcher
  import opened Orchestrator
  import opened History
  import opened ChangeDetection
  import opened RunHistory

  datatype Phase = Begun | Lost | Working(done: nat, progress: Progress) | Ended

  datatype Tx = Tx(visits: seq<Visit>, dryRun: bool, phase: Phase)

  /** `log` lists the committed runs in commit order; no step reads it. */
  datatype System = System(committed: Store, nextId: nat, holders: set<nat>, txs: map<nat, Tx>, log: seq<Run>)

  /** `Abandon` is a crash or an infrastructure error: the transaction rolls back. */
  datatype Step =
    | Begin(visits: seq<Visit>, dryRun: bool) | TryLock(id: nat) | Work(id: nat) | Finish(id: nat) | Abandon(id: nat)

  const INITIAL := System(EMPTY_STORE, 1, {}, map[], [])

  function Moved(sys: System, id: nat, phase: Phase): System
    requires id in sys.txs
  {
    sys.(txs := sys.txs[id := sys.txs[id].(phase := phase)],
         holders := if phase.Working? then sys.holders + {id} else sys.holders - {id})
  }

  /** One step; a step that is not enabled does nothing. */
  function Do(env: Env, sys: System, step: Step, grace: nat): System
    requires grace >= 1
  {
    if step.Begin? then
      sys.(nextId := sys.nextId + 1, txs := sys.txs[sys.nextId := Tx(step.visits, step.dryRun, Begun)])
    else if step.id !in sys.txs then sys
    else
      var id, tx := step.id, sys.txs[step.id];
      match (step, tx.phase)
      case (TryLock(_), Begun) =>
        if sys.holders == {} then Moved(sys, id, Working(0, Progress(sys.committed.data, [])))
        else Moved(sys, id, Lost)
      case (Work(_), Working(done, progress)) =>
        if done < |tx.visits| then
          var visited := VisitSource(env, progress.data, tx.visits[done], id);
          Moved(sys, id, Working(done + 1, Progress(visited.data, progress.outcomes + [visited.outcome])))
        else sys
      case (Finish(_), Lost) =>
        Moved(sys, id, Ended).(committed := LostOf(sys.committed, id), log := sys.log + [Loser(id)])
      case (Finish(_), Working(done, progress)) =>
        if done < |tx.visits| then sys
        else if tx.dryRun then Moved(sys, id, Ended)
        else
          Moved(sys, id, Ended).(committed := Finished(sys.committed, progress, id, grace),
                                 log := sys.log + [Winner(id, tx.visits)])
      case (Abandon(_), Ended) => sys
      case (Abandon(_), _) => Moved(sys, id, Ended)
      case _ => sys
  }

  function Exec(env: Env, steps: seq<Step>, grace: nat): System
    requires grace >= 1
  {
    if steps == [] then INITIAL
    else Do(env, Exec(env, steps[..|steps| - 1], grace), steps[|steps| - 1], grace)
  }

  // ---------------------------------------------------------------- the invariant

  /** The lock table lists exactly the transactions between the lock and their end, and at most one. */
  ghost predicate LockHeld(sys: System) {
    && (forall id :: id in sys.holders <==> id in sys.txs && sys.txs[id].phase.Working?)
    && (forall a, b :: a in sys.holders && b in sys.holders ==> a == b)
  }

  /** The holder works on what was committed when it took the lock, which is still what is committed. */
  ghost predicate HolderOnTrack(env: Env, sys: System) {
    forall id :: id in sys.txs && sys.txs[id].phase.Working? ==>
      var tx := sys.txs[id];
      && tx.phase.done <= |tx.visits|
      && tx.phase.progress == VisitAll(env, sys.committed.data, tx.visits[..tx.phase.done], id)
  }

  ghost predicate Serial(env: Env, sys: System, grace: nat)
    requires grace >= 1
  {
    && sys.committed == After(env, EMPTY_STORE, sys.log, grace)
    && (forall id :: id in sys.txs ==> id < sys.nextId)
    && (forall id :: id in sys.committed.runs ==> id in sys.txs && sys.txs[id].phase.Ended?)
    && (forall k :: 0 <= k < |sys.log| && sys.log[k].Winner? ==>
          sys.log[k].id in sys.txs && sys.txs[sys.log[k].id].visits == sys.log[k].visits && !sys.txs[sys.log[k].id].dryRun)
  }

  ghost predicate Invariant(env: Env, sys: System, grace: nat)
    requires grace >= 1
  {
    LockHeld(sys) && HolderOnTrack(env, sys) && Serial(env, sys, grace)
  }

  lemma StepKeepsLock(env: Env, sys: System, step: Step, grace: nat)
    requires grace >= 1 && Invariant(env, sys, grace)
    ensures LockHeld(Do(env, sys, step, grace))
  {
    hide VisitSource, Finished, LostOf, After, HolderOnTrack;
  }

  lemma StepKeepsTrack(env: Env, sys: System, step: Step, grace: nat)
    requires grace >= 1 && Invariant(env, sys, grace)
    ensures HolderOnTrack(env, Do(env, sys, step, grace))
  {
    hide VisitSource, Finished, After;
    var after := Do(env, sys, step, grace);
    forall id | id in after.txs && after.txs[id].phase.Working?
      ensures var tx := after.txs[id];
              && tx.phase.done <= |tx.visits|
              && tx.phase.progress == VisitAll(env, after.committed.data, tx.visits[..tx.phase.done], id)
    {
      var tx := after.txs[id];
      assert id in sys.txs;
      if sys.txs[id] == tx {
        assert after.committed.data == sys.committed.data by {
          if step.Finish? && step.id in sys.txs && sys.txs[step.id].phase.Working? {
            assert step.id in sys.holders && id in sys.holders;
          }
        }
      } else if step.Work? {
        assert tx.visits[..tx.phase.done][..tx.phase.done - 1] == tx.visits[..tx.phase.done - 1];
      } else {
        assert tx.visits[..0] == [];
      }
    }
  }

  lemma StepKeepsIds(env: Env, sys: System, step: Step, grace: nat)
    requires grace >= 1 && Invariant(env, sys, grace)
    ensures var after := Do(env, sys, step, grace);
            && (forall id :: id in after.txs ==> id < after.nextId)
            && (forall id :: id in after.committed.runs ==> id in after.txs && after.txs[id].phase.Ended?)
            && (forall k :: 0 <= k < |after.log| && after.log[k].Winner? ==>
                  after.log[k].id in after.txs && after.txs[after.log[k].id].visits == after.log[k].visits
                  && !after.txs[after.log[k].id].dryRun)
  {
    hide VisitSource, VisitAll, LockHeld, HolderOnTrack, After, AfterGc;
  }

  lemma {:induction false} StepKeepsHistory(env: Env, sys: System, step: Step, grace: nat)
    requires grace >= 1 && Invariant(env, sys, grace)
    ensures var after := Do(env, sys, step, grace); after.committed == After(env, EMPTY_STORE, after.log, grace)
  {
    hide VisitSource, VisitAll, LockHeld, AfterGc;
    var after := Do(env, sys, step, grace);
    if after.log != sys.log {
      assert after.log[..|after.log| - 1] == sys.log;
      if sys.txs[step.id].phase.Working? {
        var tx := sys.txs[step.id];
        assert tx.visits[..tx.phase.done] == tx.visits;
      }
    }
  }

  lemma StepKeepsSerial(env: Env, sys: System, step: Step, grace: nat)
    requires grace >= 1 && Invariant(env, sys, grace)
    ensures Serial(env, Do(env, sys, step, grace), grace)
  {
    StepKeepsIds(env, sys, step, grace);
    StepKeepsHistory(env, sys, step, grace);
    hide Do, After;
  }

  /** The invariant of every interleaving. */
  lemma {:induction false} EveryInterleavingIsSerial(env: Env, steps: seq<Step>, grace: nat)
    requires grace >= 1
    ensures Invariant(env, Exec(env, steps, grace), grace)
  {
    if steps == [] {
      assert Exec(env, steps, grace) == INITIAL;
    } else {
      var before, step := Exec(env, steps[..|steps| - 1], grace), steps[|steps| - 1];
      EveryInterleavingIsSerial(env, steps[..|steps| - 1], grace);
      StepKeepsLock(env, before, step, grace);
      StepKeepsTrack(env, before, step, grace);
      StepKeepsSerial(env, before, step, grace);
    }
  }

  // ---------------------------------------------------------------- what follows

  /** At most one transaction is between taking the lock and its commit or rollback. */
  lemma MutualExclusion(env: Env, steps: seq<Step>, grace: nat, a: nat, b: nat)
    requires grace >= 1
    requires var txs := Exec(env, steps, grace).txs;
             a in txs && b in txs && txs[a].phase.Working? && txs[b].phase.Working?
    ensures a == b
  {
    EveryInterleavingIsSerial(env, steps, grace);
    assert a in Exec(env, steps, grace).holders && b in Exec(env, steps, grace).holders;
  }

  /** The lock is taken exactly when no transaction is at work; otherwise it is lost. Nothing else changes. */
  lemma LockIsTakenIffFree(env: Env, steps: seq<Step>, grace: nat, id: nat)
    requires grace >= 1
    requires id in Exec(env, steps, grace).txs && Exec(env, steps, grace).txs[id].phase == Begun
    ensures var sys, after := Exec(env, steps, grace), Exec(env, steps + [TryLock(id)], grace);
            && id in after.txs && after.committed == sys.committed && after.log == sys.log
            && (after.txs[id].phase.Working? <==> forall other :: other in sys.txs ==> !sys.txs[other].phase.Working?)
            && (after.txs[id].phase.Working? || after.txs[id].phase == Lost)
            && forall other :: other in sys.txs && other != id ==> other in after.txs && after.txs[other] == sys.txs[other]
  {
    EveryInterleavingIsSerial(env, steps, grace);
    hide VisitSource, Finished, After, HolderOnTrack, Serial;
    assert (steps + [TryLock(id)])[..|steps|] == steps;
    var sys := Exec(env, steps, grace);
    assert sys.holders != {} ==> exists other :: other in sys.holders;
  }

  /** An ended transaction holds no lock and stays ended: the next one can take the lock. */
  lemma FinishReleasesTheLock(env: Env, steps: seq<Step>, grace: nat, id: nat)
    requires grace >= 1
    requires id in Exec(env, steps, grace).txs && Exec(env, steps, grace).txs[id].phase.Working?
    requires Exec(env, steps, grace).txs[id].phase.done == |Exec(env, steps, grace).txs[id].visits|
    ensures var after := Exec(env, steps + [Finish(id)], grace);
            && id in after.txs && after.txs[id].phase == Ended
            && forall other :: other in after.txs ==> !after.txs[other].phase.Working?
  {
    EveryInterleavingIsSerial(env, steps, grace);
    assert (steps + [Finish(id)])[..|steps|] == steps;
    hide HolderOnTrack, Serial, Do;
    FinishEnds(env, Exec(env, steps, grace), id, grace);
  }

  lemma FinishEnds(env: Env, sys: System, id: nat, grace: nat)
    requires grace >= 1 && LockHeld(sys)
    requires id in sys.txs && sys.txs[id].phase.Working? && sys.txs[id].phase.done == |sys.txs[id].visits|
    ensures var after := Do(env, sys, Finish(id), grace);
            && id in after.txs && after.txs[id].phase == Ended
            && forall other :: other in after.txs ==> !after.txs[other].phase.Working?
  {
    hide VisitSource, Finished;
    assert id in sys.holders;
    assert forall other :: other in sys.txs && sys.txs[other].phase.Working? ==> other in sys.holders;
  }

  /** The committed database is the one that the committed runs would build one after another. */
  lemma CommittedIsSequential(env: Env, steps: seq<Step>, grace: nat)
    requires grace >= 1
    ensures var sys := Exec(env, steps, grace);
            sys.committed == After(env, EMPTY_STORE, sys.log, grace)
  {
    EveryInterleavingIsSerial(env, steps, grace);
  }

  /**
   * Only the commit of a finished winner that is not a dry run changes files or rows. The commit of a
   * loser changes its own `sync_run` row. Every other step changes nothing that is committed.
   */
  lemma {:induction false} WhoChangesWhat(env: Env, steps: seq<Step>, step: Step, grace: nat)
    requires grace >= 1
    ensures var sys, after := Exec(env, steps, grace), Exec(env, steps + [step], grace);
            if step.Finish? && step.id in sys.txs && sys.txs[step.id].phase.Lost?
            then after.committed == Store(sys.committed.runs[step.id := RunStatus.Failed], sys.committed.data)
            else if step.Finish? && step.id in sys.txs && sys.txs[step.id].phase.Working?
                    && sys.txs[step.id].phase.done == |sys.txs[step.id].visits| && !sys.txs[step.id].dryRun
            then after.committed == RunOf(env, sys.committed, step.id, sys.txs[step.id].visits, grace)
            else after.committed == sys.committed
  {
    hide VisitSource, Finished, After, Serial, LockHeld;
    var sys := Exec(env, steps, grace);
    assert (steps + [step])[..|steps + [step]| - 1] == steps;
    EveryInterleavingIsSerial(env, steps, grace);
    if step.Finish? && step.id in sys.txs && sys.txs[step.id].phase.Working? {
      var tx := sys.txs[step.id];
      assert tx.phase.progress == VisitAll(env, sys.committed.data, tx.visits[..tx.phase.done], step.id);
      assert tx.visits[..|tx.visits|] == tx.visits;
    }
  }

  /** A committed transaction ended for good, and its id was never used before. */
  lemma CommitsUseFreshIds(env: Env, steps: seq<Step>, step: Step, grace: nat)
    requires grace >= 1
    requires var sys := Exec(env, steps, grace);
             step.Finish? && step.id in sys.txs && !sys.txs[step.id].phase.Ended?
    ensures step.id !in Exec(env, steps, grace).committed.runs
  {
    EveryInterleavingIsSerial(env, steps, grace);
  }

  /** A step commits nothing, or one run under an id that no committed run has. */
  lemma StepCommitsAFreshRun(env: Env, steps: seq<Step>, step: Step, grace: nat)
    requires grace >= 1
    ensures var was, now := Exec(env, steps, grace).committed, Exec(env, steps + [step], grace).committed;
            now == was || exists run: Run :: run.id !in was.runs && now == Apply(env, was, run, grace)
  {
    var sys := Exec(env, steps, grace);
    WhoChangesWhat(env, steps, step, grace);
    if step.Finish? && step.id in sys.txs && !sys.txs[step.id].phase.Ended? {
      CommitsUseFreshIds(env, steps, step, grace);
      hide Exec, RunOf;
      var run := if sys.txs[step.id].phase.Lost? then Loser(step.id) else Winner(step.id, sys.txs[step.id].visits);
      assert run.id !in sys.committed.runs;
      assert Apply(env, sys.committed, run, grace)
          == if run.Loser? then LostOf(sys.committed, step.id)
             else RunOf(env, sys.committed, step.id, sys.txs[step.id].visits, grace);
    }
  }

  /** What every interleaving keeps from one moment to any later one: rows, first sightings, the threshold. */
  lemma {:induction false} LaterCommitsKeep(env: Env, steps: seq<Step>, more: seq<Step>, grace: nat, id: RowId)
    requires grace >= 1
    ensures var was, now := Exec(env, steps, grace).committed, Exec(env, steps + more, grace).committed;
            && (id in was.data.rows ==>
                  id in now.data.rows && now.data.rows[id].firstSeen == was.data.rows[id].firstSeen)
            && Successes(was.runs) <= Successes(now.runs)
            && (NthLargest(Successes(was.runs), grace - 1).Some? ==>
                  && NthLargest(Successes(now.runs), grace - 1).Some?
                  && NthLargest(Successes(was.runs), grace - 1).value <= NthLargest(Successes(now.runs), grace - 1).value)
    decreases |more|
  {
    hide Exec, Apply, Successes, NthLargest;
    if more == [] {
      assert steps + more == steps;
    } else {
      var init, last := more[..|more| - 1], more[|more| - 1];
      LaterCommitsKeep(env, steps, init, grace, id);
      StepCommitsAFreshRun(env, steps + init, last, grace);
      assert steps + more == (steps + init) + [last];
      var was, now := Exec(env, steps + init, grace).committed, Exec(env, steps + more, grace).committed;
      if now != was {
        var run: Run :| run.id !in was.runs && now == Apply(env, was, run, grace);
        FreshRunKeeps(env, was, run, grace, id);
      }
    }
  }

  /** In every interleaving: while fewer than N runs have succeeded, no row is stale. */
  lemma {:induction false} NoStaleRowInBootstrap(env: Env, steps: seq<Step>, grace: nat, id: RowId)
    requires grace >= 1
    requires var store := Exec(env, steps, grace).committed; |Successes(store.runs)| < grace && id in store.data.rows
    ensures !Exec(env, steps, grace).committed.data.rows[id].stale
  {
    hide Apply, Successes, Do, NthLargest;
    if steps != [] {
      var init, last := steps[..|steps| - 1], steps[|steps| - 1];
      StepCommitsAFreshRun(env, init, last, grace);
      assert steps == init + [last];
      var was, now := Exec(env, init, grace).committed, Exec(env, steps, grace).committed;
      if now != was {
        var run: Run :| run.id !in was.runs && now == Apply(env, was, run, grace);
        FreshRunKeeps(env, was, run, grace, id);
        SubsetSize(Successes(was.runs), Successes(now.runs));
      }
      if id in was.data.rows {
        NoStaleRowInBootstrap(env, init, grace, id);
      }
    }
  }

  /** The hash invariant holds in every interleaving. */
  lemma ShaInvariantUnderConcurrency(env: Env, steps: seq<Step>, grace: nat)
    requires grace >= 1
    requires forall k :: 0 <= k < |steps| && steps[k].Begin? ==> ParsedVisits(steps[k].visits)
    ensures ShaDescribesApplied(env, Exec(env, steps, grace).committed.data)
  {
    EveryInterleavingIsSerial(env, steps, grace);
    TxsComeFromBegin(env, steps, grace);
    ShaInvariantOverHistory(env, Exec(env, steps, grace).log, grace);
  }

  lemma {:induction false} TxsComeFromBegin(env: Env, steps: seq<Step>, grace: nat)
    requires grace >= 1
    requires forall k :: 0 <= k < |steps| && steps[k].Begin? ==> ParsedVisits(steps[k].visits)
    ensures forall id :: id in Exec(env, steps, grace).txs ==> ParsedVisits(Exec(env, steps, grace).txs[id].visits)
  {
    if steps != [] {
      var init := steps[..|steps| - 1];
      TxsComeFromBegin(env, init, grace);
      assert steps[|steps| - 1].Begin? ==> ParsedVisits(steps[|steps| - 1].visits);
    }
  }
}
