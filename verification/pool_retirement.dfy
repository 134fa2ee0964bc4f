/** When a process whose slice is over leaves the run queue for good. */
module PoolRetirement {
  import opened BeamCore
  import opened ErlProcess
  import opened BeamEmu
  import EmuSlices
  import RQ = RunQueueModel
  import opened Scheduler
  import opened SchedulerPool

  /** Some worker has put `p` back and has still to write its state. */
  ghost predicate LateFor(s: Pool, p: RQ.Pid) {
    exists v :: 0 <= v < |s.workers| && s.workers[v] == Late(p)
  }

  /** No event is worker `w`'s. */
  predicate LeavesAlone(es: seq<Event>, w: nat) {
    forall k :: 0 <= k < |es| ==> es[k].w != w
  }

  /** Worker `w` decides to let its process go. */
  predicate Retires(s: Pool, w: nat) {
    && Enabled(s, Decide(w))
    && Apply(s, Decide(w)) == At(s, w, Idle).(retired := s.retired + multiset{s.workers[w].p})
  }

  /** The phases in which a worker has a process. */
  predicate Has(ph: Phase) {
    !ph.Idle? && !ph.Late?
  }

  lemma OnlyHolder(s: Pool, w: nat, v: nat)
    requires w < |s.workers| && v < |s.workers| && w != v && Has(s.workers[w]) && Places(s, s.workers[w].p) == 1
    ensures !Holds(s.workers[v], s.workers[w].p)
  {
    hide HeldCount, QueuedCount;
    var p := s.workers[w].p;
    if Holds(s.workers[v], p) {
      HeldTwice(s.workers, if w < v then w else v, if w < v then v else w, p);
    }
  }

  /** Worker `w` has its process and nobody else can write the state of it. */
  ghost predicate Settled(s: Pool, w: nat, ph: Phase, st: ProcState) {
    && w < |s.workers| && s.workers[w] == ph && Has(ph)
    && Places(s, ph.p) == 1 && !LateFor(s, ph.p) && StateOf(s, ph.p) == st
  }

  lemma StaysSettled(s: Pool, w: nat, ph: Phase, st: ProcState, e: Event)
    requires Settled(s, w, ph, st) && Enabled(s, e) && e.w != w
    ensures Settled(Apply(s, e), w, ph, st)
  {
    hide Places, RQ.Dequeue, RQ.Steal, RQ.Put;
    StepKeepsPlaces(s, e, ph.p);
    OnlyHolder(s, w, e.w);
    var s' := Apply(s, e);
    forall v | 0 <= v < |s'.workers| ensures s'.workers[v] != Late(ph.p) {
      assert s.workers[v] != Late(ph.p) && (v == e.w || s'.workers[v] == s.workers[v]);
    }
    assert e.MarkRunnable? ==> s.workers[e.w] != Late(ph.p);
  }

  lemma {:induction false} RunStaysSettled(s: Pool, es: seq<Event>, s': Pool, w: nat, ph: Phase, st: ProcState)
    requires Settled(s, w, ph, st) && Run(s, es, s') && LeavesAlone(es, w)
    ensures Settled(s', w, ph, st)
    decreases |es|
  {
    hide Enabled, Apply, Settled;
    if es != [] {
      StaysSettled(s, w, ph, st, es[0]);
      RunStaysSettled(Apply(s, es[0]), es[1..], s', w, ph, st);
    }
  }

  /** A late write makes the process look runnable, whatever its slice left. */
  lemma LateWriteRequeues(s: Pool, w: nat, v: nat)
    requires w < |s.workers| && v < |s.workers| && s.workers[w].Executed? && s.workers[v] == Late(s.workers[w].p)
    ensures var s' := At(SetState(s, s.workers[w].p, Runnable), v, Idle);
            Run(s, [MarkRunnable(v)], s') && LeavesAlone([MarkRunnable(v)], w) && !Retires(s', w)
  {
    var e := MarkRunnable(v);
    var s' := Apply(s, e);
    assert Run(s', [], s') && [e][1..] == [];
  }

  /** A process whose slice is over retires whatever the other workers do meanwhile exactly
      when the test would let it go now and no state write for it is outstanding. */
  lemma RetiresIff(s: Pool, w: nat)
    requires w < |s.workers| && s.workers[w].Executed? && Places(s, s.workers[w].p) == 1
    ensures (forall es, s' :: Run(s, es, s') && LeavesAlone(es, w) ==> Retires(s', w))
       <==> !Requeues(StateOf(s, s.workers[w].p), s.workers[w].res) && !LateFor(s, s.workers[w].p)
  {
    hide Places, Run, Retires, LeavesAlone;
    var ph := s.workers[w];
    var st := StateOf(s, ph.p);
    if LateFor(s, ph.p) {
      var v :| 0 <= v < |s.workers| && s.workers[v] == Late(ph.p);
      LateWriteRequeues(s, w, v);
    } else if Requeues(st, ph.res) {
      RequeuesNow(s, w);
    } else {
      forall es, s' | Run(s, es, s') && LeavesAlone(es, w) ensures Retires(s', w) {
        RunStaysSettled(s, es, s', w, ph, st);
        SettledRetires(s', w, ph, st);
      }
    }
  }

  lemma RequeuesNow(s: Pool, w: nat)
    requires w < |s.workers| && s.workers[w].Executed? && Requeues(StateOf(s, s.workers[w].p), s.workers[w].res)
    ensures Run(s, [], s) && LeavesAlone([], w) && !Retires(s, w)
  {
  }

  lemma SettledRetires(s: Pool, w: nat, ph: Phase, st: ProcState)
    requires Settled(s, w, ph, st) && ph.Executed? && !Requeues(st, ph.res)
    ensures Retires(s, w)
  {
    hide Places, LateFor;
  }

  /** So a process whose slice waited or exited stays out of the run queue exactly when no worker
      is late with an earlier re-enqueue of it at the moment the slice ends. */
  lemma LeavingRetiresIff(s: Pool, w: nat, left: ProcState, res: Status)
    requires Enabled(s, Slice(w, Some(left), res)) && Places(s, s.workers[w].p) == 1 && (left.Waiting? || left.Exited?)
    ensures var t := Apply(s, Slice(w, Some(left), res));
            (forall es, s' :: Run(t, es, s') && LeavesAlone(es, w) ==> Retires(s', w)) <==> !LateFor(s, s.workers[w].p)
  {
    hide Places, Retires, Run, LeavesAlone;
    var p := s.workers[w].p;
    var t := Apply(s, Slice(w, Some(left), res));
    StepKeepsPlaces(s, Slice(w, Some(left), res), p);
    RetiresIff(t, w);
    assert forall v :: 0 <= v < |s.workers| && v != w ==> t.workers[v] == s.workers[v];
    assert LateFor(t, p) <==> LateFor(s, p);
  }

  /** A run of worker `w`'s turn: it sets its process RUNNING, a slice fails without writing a
      state, and the others do anything meanwhile. */
  ghost predicate FailedTurn(s: Pool, w: nat, res: Status, during: seq<Event>, s1: Pool, after: seq<Event>, s2: Pool) {
    && Enabled(s, MarkRunning(w)) && Run(Apply(s, MarkRunning(w)), during, s1) && LeavesAlone(during, w)
    && Enabled(s1, Slice(w, None, res)) && Run(Apply(s1, Slice(w, None, res)), after, s2) && LeavesAlone(after, w)
  }

  lemma MarkSettles(s: Pool, w: nat)
    requires Enabled(s, MarkRunning(w)) && Places(s, s.workers[w].p) == 1 && !LateFor(s, s.workers[w].p)
    ensures Settled(Apply(s, MarkRunning(w)), w, Executing(s.workers[w].p), Running)
  {
    hide Places;
    StepKeepsPlaces(s, MarkRunning(w), s.workers[w].p);
    var t := Apply(s, MarkRunning(w));
    assert forall v :: 0 <= v < |s.workers| && v != w ==> t.workers[v] == s.workers[v];
  }

  lemma FailureSettles(s: Pool, w: nat, p: RQ.Pid, res: Status)
    requires Settled(s, w, Executing(p), Running)
    ensures Enabled(s, Slice(w, None, res)) && Settled(Apply(s, Slice(w, None, res)), w, Executed(p, None, res), Running)
  {
    hide Places;
    StepKeepsPlaces(s, Slice(w, None, res), p);
    var t := Apply(s, Slice(w, None, res));
    assert forall v :: 0 <= v < |s.workers| && v != w ==> t.workers[v] == s.workers[v];
  }

  lemma FailedTurnRetires(s: Pool, w: nat, res: Status, during: seq<Event>, s1: Pool, after: seq<Event>, s2: Pool)
    requires FailedTurn(s, w, res, during, s1, after, s2) && res != Ok
    requires Places(s, s.workers[w].p) == 1 && !LateFor(s, s.workers[w].p)
    ensures Retires(s2, w) && s2.workers[w].p == s.workers[w].p
  {
    var p := s.workers[w].p;
    hide Places, Run, Retires, LeavesAlone, LateFor, Apply;
    MarkSettles(s, w);
    RunStaysSettled(Apply(s, MarkRunning(w)), during, s1, w, Executing(p), Running);
    FailureSettles(s1, w, p, res);
    RunStaysSettled(Apply(s1, Slice(w, None, res)), after, s2, w, Executed(p, None, res), Running);
    SettledRetires(s2, w, Executed(p, None, res), Running);
  }

  /** A late write that lands during the slice makes the failed process look runnable. */
  lemma LateFailureRequeues(s: Pool, w: nat, v: nat, res: Status) returns (s1: Pool, s2: Pool)
    requires Enabled(s, MarkRunning(w)) && v < |s.workers| && s.workers[v] == Late(s.workers[w].p)
    ensures FailedTurn(s, w, res, [MarkRunnable(v)], s1, [], s2) && !Retires(s2, w)
  {
    var t := Apply(s, MarkRunning(w));
    s1 := Apply(t, MarkRunnable(v));
    s2 := Apply(s1, Slice(w, None, res));
    assert [MarkRunnable(v)][1..] == [];
    assert Run(s1, [], s1) && Run(s2, [], s2);
    assert Run(t, [MarkRunnable(v)], s1);
  }

  /** A slice that fails, writing no state, retires its process in every interleaving exactly when
      no state write for it is outstanding at the moment it is set RUNNING. */
  lemma FailedSliceRetiresIff(s: Pool, w: nat, res: Status)
    requires Enabled(s, MarkRunning(w)) && Places(s, s.workers[w].p) == 1 && res != Ok
    ensures (forall during, s1, after, s2 :: FailedTurn(s, w, res, during, s1, after, s2) ==> Retires(s2, w))
       <==> !LateFor(s, s.workers[w].p)
  {
    hide Places, FailedTurn, Retires;
    if LateFor(s, s.workers[w].p) {
      var v :| 0 <= v < |s.workers| && s.workers[v] == Late(s.workers[w].p);
      var s1, s2 := LateFailureRequeues(s, w, v, res);
    } else {
      forall during, s1, after, s2 | FailedTurn(s, w, res, during, s1, after, s2) ensures Retires(s2, w) {
        FailedTurnRetires(s, w, res, during, s1, after, s2);
      }
    }
  }

  /** From the dequeue on: with no write for it outstanding when it is taken from the queue, a
      process whose slice fails leaves for good. */
  lemma FailedSliceRetires(s: Pool, w: nat, p: RQ.Pid, res: Status, before: seq<Event>, s0: Pool,
                           during: seq<Event>, s1: Pool, after: seq<Event>, s2: Pool)
    requires Enabled(s, Dequeue(w)) && Apply(s, Dequeue(w)).workers[w] == Phase.Taken(p)
    requires Places(s, p) == 1 && !LateFor(s, p) && res != Ok
    requires Run(Apply(s, Dequeue(w)), before, s0) && LeavesAlone(before, w)
    requires FailedTurn(s0, w, res, during, s1, after, s2)
    ensures Retires(s2, w) && Apply(s2, Decide(w)).retired == s2.retired + multiset{p}
  {
    DequeueSettles(s, w, p);
    hide Places, Run, FailedTurn, LeavesAlone, LateFor, Apply;
    var t := Apply(s, Dequeue(w));
    RunStaysSettled(t, before, s0, w, Phase.Taken(p), StateOf(t, p));
    FailedTurnRetires(s0, w, res, during, s1, after, s2);
  }

  lemma DequeueSettles(s: Pool, w: nat, p: RQ.Pid)
    requires Enabled(s, Dequeue(w)) && Apply(s, Dequeue(w)).workers[w] == Phase.Taken(p)
    requires Places(s, p) == 1 && !LateFor(s, p)
    ensures var t := Apply(s, Dequeue(w)); Settled(t, w, Phase.Taken(p), StateOf(t, p))
  {
    hide Places, RQ.Dequeue;
    StepKeepsPlaces(s, Dequeue(w), p);
    var t := Apply(s, Dequeue(w));
    assert forall v :: 0 <= v < |s.workers| && v != w ==> t.workers[v] == s.workers[v];
  }

  /** With one worker a slice that waited or exited always retires its process. */
  lemma SoleWorkerRetires(s: Pool, left: ProcState, res: Status)
    requires |s.workers| == 1 && Enabled(s, Slice(0, Some(left), res)) && (left.Waiting? || left.Exited?)
    ensures Retires(Apply(s, Slice(0, Some(left), res)), 0)
  {
  }

  /** The interpreter's slices end as the pool takes them to end. */
  lemma SlicesArePlausible(env: Env, s: State, r: int, saveIp: bool)
    requires WfCode(env.code) && WfState(s)
    ensures PlausibleEnd(EmuSlices.Execute(env, s, r, saveIp).state, EmuSlices.Execute(env, s, r, saveIp).res)
  {
    hide EmuSlices.Run;
    EmuSlices.EnterKeeps(env, s);
    RunKinds(env, EmuSlices.Enter(env, s), r);
  }
}
