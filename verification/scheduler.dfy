/** One scheduler: its step, who waits how long, and who is put back. */
module Scheduler {
  import opened BeamCore
  import opened ErlProcess
  import opened BeamEmu
  import opened EmuSlices
  import RQ = RunQueueModel
  import opened RunQueueList

  /** The test after a slice: `state` is the process state found, `res` the slice's result. */
  predicate Requeues(state: ProcState, res: Status) {
    state.Runnable? || (res.Ok? && state.Running?)
  }

  /** A process leaves the run queue exactly when its slice waits, exits or fails; a process
      that has run off the end of its code is put back like a preempted one. */
  lemma RequeuedIff(env: Env, s: State, r: int, saveIp: bool)
    requires WfCode(env.code) && WfState(s)
    ensures var e := Execute(env, s, r, saveIp);
            var found := if e.state.Some? then e.state.value else Running;
            Requeues(found, e.res) <==> (e.kind.Preempted? || e.kind.Finished?)
  {
    hide Step, Run;
    RunKinds(env, Enter(env, s), r);
  }

  lemma {:induction false} RunKinds(env: Env, s: State, r: int)
    requires WfCode(env.code) && WfState(s)
    ensures var e := Run(env, s, r);
            && (e.kind.Preempted? ==> e.state == Some(Runnable) && e.res == Ok)
            && (e.kind.Finished? ==> e.state == None && e.res == Ok)
            && (e.kind.Waited? ==> e.state == Some(Waiting))
            && (e.kind.Stopped? ==> e.state == Some(Exited) || (e.state == None && e.res != Ok))
    decreases if r > 0 then r else 0
  {
    hide Step;
    if s.ip < |env.code| && r > 1 {
      StepWf(env, s);
      if Step(env, s).Next? {
        RunKinds(env, Step(env, s).s, r - 1);
      } else {
        StopKinds(env, s);
      }
    }
  }

  lemma StopKinds(env: Env, s: State)
    requires WfCode(env.code) && WfState(s) && s.ip < |env.code| && Step(env, s).Stop?
    ensures var o := Step(env, s);
            o.state == Some(Waiting) || o.state == Some(Exited) || (o.state == None && o.res != Ok)
  {
    hide AllocateFrame, PopFrame, MakeClosure, Arith, FindLabel, TupleAt, TupleArity, Deref, TableTarget;
  }

  // ---------- the step ----------

  /** One step on the four sequences; `back` says whether the slice puts its process back. */
  function StepQueues(qs: RQ.Levels, back: bool): RQ.Levels {
    match RQ.Dequeue(qs)
    case Nothing => qs
    case Taken(p, _, rest) => if back then RQ.Put(rest, RQ.NORMAL_LEVEL, p) else rest
  }

  /** `beam_scheduler_step`; `slice` is what executing a process comes to. */
  method SchedulerStep(rq: RunQueue, slice: RQ.Pid -> (ProcState, Status)) returns (res: Status, ran: Option<RQ.Pid>)
    requires rq.Valid()
    modifies rq.Repr
    ensures rq.Valid() && fresh(rq.Repr - old(rq.Repr))
    ensures match RQ.Dequeue(old(rq.Queues()))
            case Nothing => res == NotFound && ran == None && rq.Queues() == old(rq.Queues())
            case Taken(p, _, _) =>
              && ran == Some(p) && res == slice(p).1
              && rq.Queues() == StepQueues(old(rq.Queues()), Requeues(slice(p).0, slice(p).1))
  {
    hide RQ.Highest, Procs;
    ran := rq.DequeueProcess();
    if ran == None {
      return NotFound, None;
    }
    var (state, r) := slice(ran.value);
    res := r;
    if Requeues(state, res) {
      var enqueued := rq.EnqueueProcess(ran.value, RQ.NORMAL_LEVEL);
    }
  }

  // ---------- bounded waiting ----------

  /** The queues after the steps whose outcomes are `os`. */
  function QueuesAfter(qs: RQ.Levels, os: seq<bool>): RQ.Levels
    decreases |os|
  {
    if os == [] then qs else QueuesAfter(StepQueues(qs, os[0]), os[1..])
  }

  /** The process the next step runs. */
  function NextRun(qs: RQ.Levels): Option<RQ.Pid> {
    match RQ.Dequeue(qs)
    case Nothing => None
    case Taken(p, _, _) => Some(p)
  }

  /** MAX, then HIGH, then NORMAL, each oldest first. */
  function Agenda(qs: RQ.Levels): seq<RQ.Pid> {
    qs[RQ.MAX_LEVEL] + qs[RQ.HIGH_LEVEL] + qs[RQ.NORMAL_LEVEL]
  }

  /** A step with anything on the agenda runs its first entry and only adds behind it. */
  lemma StepServesAgenda(qs: RQ.Levels, back: bool)
    requires Agenda(qs) != []
    ensures NextRun(qs) == Some(Agenda(qs)[0])
    ensures Agenda(StepQueues(qs, back)) == Agenda(qs)[1..] + if back then [Agenda(qs)[0]] else []
    ensures StepQueues(qs, back)[RQ.LOW_LEVEL] == qs[RQ.LOW_LEVEL]
  {
    assert RQ.Highest(qs, 0).Some? && RQ.Highest(qs, 0).value < RQ.LOW_LEVEL;
    var k := RQ.Highest(qs, 0).value;
    assert forall j :: 0 <= j < k ==> qs[j] == [];
    var rest := qs[k := qs[k][1..]];
    assert RQ.Dequeue(qs) == RQ.Taken(qs[k][0], k, rest);
    assert k == 0 || k == 1 || k == 2;
    assert Agenda(rest) == Agenda(qs)[1..] && qs[k][0] == Agenda(qs)[0];
    assert back ==> Agenda(RQ.Put(rest, RQ.NORMAL_LEVEL, qs[k][0])) == Agenda(rest) + [qs[k][0]];
  }

  /** Bounded waiting: whatever code runs and however its slices end, the first steps run the
      agenda in order; a process at position k of NORMAL with m processes in MAX and HIGH runs
      on step m+k+1 and not earlier. */
  lemma {:induction false} AgendaRunsInOrder(qs: RQ.Levels, os: seq<bool>)
    requires |os| < |Agenda(qs)|
    ensures NextRun(QueuesAfter(qs, os)) == Some(Agenda(qs)[|os|])
    decreases |os|
  {
    hide NextRun, StepQueues, Agenda;
    StepServesAgenda(qs, os != [] && os[0]);
    if os != [] {
      AgendaRunsInOrder(StepQueues(qs, os[0]), os[1..]);
    }
  }

  lemma BoundedWaiting(qs: RQ.Levels, k: nat, os: seq<bool>)
    requires k < |qs[RQ.NORMAL_LEVEL]|
    requires |os| == |qs[RQ.MAX_LEVEL]| + |qs[RQ.HIGH_LEVEL]| + k
    ensures NextRun(QueuesAfter(qs, os)) == Some(qs[RQ.NORMAL_LEVEL][k])
    ensures forall j :: 0 <= j < |os| && qs[RQ.NORMAL_LEVEL][k] !in Agenda(qs)[..|os|] ==>
              NextRun(QueuesAfter(qs, os[..j])) != Some(qs[RQ.NORMAL_LEVEL][k])
  {
    hide NextRun, StepQueues;
    AgendaRunsInOrder(qs, os);
    forall j | 0 <= j < |os| && qs[RQ.NORMAL_LEVEL][k] !in Agenda(qs)[..|os|]
      ensures NextRun(QueuesAfter(qs, os[..j])) != Some(qs[RQ.NORMAL_LEVEL][k])
    {
      AgendaRunsInOrder(qs, os[..j]);
      assert Agenda(qs)[j] == Agenda(qs)[..|os|][j];
    }
  }

  /** A process of the LOW level runs only when the three levels above are empty. */
  lemma LowRunsLast(qs: RQ.Levels)
    ensures RQ.Dequeue(qs).Taken? && RQ.Dequeue(qs).level == RQ.LOW_LEVEL
       <==> Agenda(qs) == [] && qs[RQ.LOW_LEVEL] != []
  {
    if Agenda(qs) == [] {
      assert qs[0] == [] && qs[1] == [] && qs[2] == [];
    } else {
      StepServesAgenda(qs, false);
    }
  }

  /** Once it has run and is put back, a process of the LOW level is one of the NORMAL level. */
  lemma LowIsPromoted(qs: RQ.Levels, back: bool)
    requires Agenda(qs) == [] && qs[RQ.LOW_LEVEL] != []
    ensures var p, qs' := qs[3][0], StepQueues(qs, back);
            && NextRun(qs) == Some(p) && qs[3] == [p] + qs'[3] && qs'[0] == [] && qs'[1] == []
            && qs'[2] == if back then [p] else []
  {
    LowRunsLast(qs);
    RQ.DequeueTakesHighest(qs);
    hide RQ.Dequeue;
    assert qs[2] == [] && [] + [qs[3][0]] == [qs[3][0]];
  }

  /** While every slice puts its process back, a nonempty agenda never empties: the LOW level
      is not served at all, for any number of steps. */
  lemma {:induction false} BusyAgendaStarvesLow(qs: RQ.Levels, os: seq<bool>)
    requires Agenda(qs) != [] && forall k :: 0 <= k < |os| ==> os[k]
    ensures |Agenda(QueuesAfter(qs, os))| == |Agenda(qs)|
    ensures QueuesAfter(qs, os)[RQ.LOW_LEVEL] == qs[RQ.LOW_LEVEL]
    decreases |os|
  {
    hide NextRun, StepQueues, Agenda;
    if os != [] {
      StepServesAgenda(qs, true);
      BusyAgendaStarvesLow(StepQueues(qs, true), os[1..]);
    }
  }
}
