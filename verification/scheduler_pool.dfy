/** Worker threads sharing one run queue, in every interleaving.  Each locked region and each
    unlocked access to a process's state is one step. */
module SchedulerPool {
  import opened BeamCore
  import opened ErlProcess
  import RQ = RunQueueModel
  import opened Scheduler

  /** Where a worker is. */
  datatype Phase =
    | Idle
    | Taken(p: RQ.Pid)                                            // out of the queue, lock released
    | Executing(p: RQ.Pid)                                        // state set to RUNNING
    | Executed(p: RQ.Pid, left: Option<ProcState>, res: Status)    // slice over
    | Returning(p: RQ.Pid)                                        // decided to put it back
    | Late(p: RQ.Pid)                                             // put back, lock released, state not yet written

  datatype Pool = Pool(
    qs: RQ.Levels,
    workers: seq<Phase>,
    state: map<RQ.Pid, ProcState>,
    retired: multiset<RQ.Pid>)

  datatype Event =
    | Dequeue(w: nat)
    | Steal(w: nat)
    | MarkRunning(w: nat)
    | Slice(w: nat, left: Option<ProcState>, res: Status)
    | Decide(w: nat)
    | PutBack(w: nat)
    | MarkRunnable(w: nat)

  predicate Enabled(s: Pool, e: Event) {
    && e.w < |s.workers|
    && match e
       case Dequeue(w) => s.workers[w].Idle?
       case Steal(w) => s.workers[w].Idle?
       case MarkRunning(w) => s.workers[w].Taken?
       case Slice(w, _, _) => s.workers[w].Executing?
       case Decide(w) => s.workers[w].Executed?
       case PutBack(w) => s.workers[w].Returning?
       case MarkRunnable(w) => s.workers[w].Late?
  }

  function At(s: Pool, w: nat, ph: Phase): Pool
    requires w < |s.workers|
  {
    s.(workers := s.workers[w := ph])
  }

  function SetState(s: Pool, p: RQ.Pid, st: ProcState): Pool {
    s.(state := s.state[p := st])
  }

  function StateOf(s: Pool, p: RQ.Pid): ProcState {
    if p in s.state then s.state[p] else Runnable
  }

  function TakeWith(s: Pool, w: nat, t: RQ.Taken): Pool
    requires w < |s.workers|
  {
    match t
    case Nothing => s
    case Taken(p, _, rest) => At(s, w, Phase.Taken(p)).(qs := rest)
  }

  function Apply(s: Pool, e: Event): Pool
    requires Enabled(s, e)
  {
    match e
    case Dequeue(w) => TakeWith(s, w, RQ.Dequeue(s.qs))
    case Steal(w) => TakeWith(s, w, RQ.Steal(s.qs))
    case MarkRunning(w) => SetState(At(s, w, Executing(s.workers[w].p)), s.workers[w].p, Running)
    case Slice(w, left, res) =>
      var p := s.workers[w].p;
      var s' := At(s, w, Executed(p, left, res));
      if left.Some? then SetState(s', p, left.value) else s'
    case Decide(w) =>
      var p := s.workers[w].p;
      if Requeues(StateOf(s, p), s.workers[w].res) then At(s, w, Returning(p))
      else At(s, w, Idle).(retired := s.retired + multiset{p})
    case PutBack(w) =>
      var p := s.workers[w].p;
      At(s, w, Late(p)).(qs := RQ.Put(s.qs, RQ.NORMAL_LEVEL, p))
    case MarkRunnable(w) => SetState(At(s, w, Idle), s.workers[w].p, Runnable)
  }

  /** A worker looking for a process takes the oldest of the highest level, a thief the oldest of
      the lowest; with nothing queued both stay idle. */
  lemma WorkersTake(s: Pool, e: Event)
    requires Enabled(s, e) && (e.Dequeue? || e.Steal?)
    ensures var t := Apply(s, e);
            if s.qs[0] == s.qs[1] == s.qs[2] == s.qs[3] == [] then t == s
            else
              && t.workers[e.w].Taken? && t == At(s, e.w, t.workers[e.w]).(qs := t.qs)
              && exists k: nat :: RQ.TakenFrom(s.qs, k, t.workers[e.w].p, t.qs)
                   && forall j :: 0 <= j < 4 && (if e.Dequeue? then j < k else j > k) ==> s.qs[j] == []
  {
    RQ.DequeueTakesHighest(s.qs);
    RQ.StealTakesLowest(s.qs);
    hide RQ.Dequeue, RQ.Steal;
  }

  // ---------- placement ----------

  /** Worker phases in which the worker has the process. */
  predicate Holds(ph: Phase, p: RQ.Pid) {
    !ph.Idle? && !ph.Late? && ph.p == p
  }

  function HeldCount(ws: seq<Phase>, p: RQ.Pid): nat {
    if ws == [] then 0 else HeldCount(ws[..|ws| - 1], p) + if Holds(ws[|ws| - 1], p) then 1 else 0
  }

  function QueuedCount(qs: RQ.Levels, p: RQ.Pid): nat {
    multiset(qs[0])[p] + multiset(qs[1])[p] + multiset(qs[2])[p] + multiset(qs[3])[p]
  }

  /** The number of places a process is in: queue slots, workers, retirement. */
  function Places(s: Pool, p: RQ.Pid): nat {
    QueuedCount(s.qs, p) + HeldCount(s.workers, p) + s.retired[p]
  }

  lemma {:induction false} HeldUpdate(ws: seq<Phase>, w: nat, ph: Phase, p: RQ.Pid)
    requires w < |ws|
    ensures HeldCount(ws[w := ph], p) + (if Holds(ws[w], p) then 1 else 0)
         == HeldCount(ws, p) + (if Holds(ph, p) then 1 else 0)
    decreases |ws|
  {
    hide Holds;
    var n := |ws| - 1;
    if w == n {
      assert ws[w := ph][..n] == ws[..n];
    } else {
      HeldUpdate(ws[..n], w, ph, p);
      assert ws[w := ph][..n] == ws[..n][w := ph];
    }
  }

  lemma QueuedTake(qs: RQ.Levels, k: nat, p: RQ.Pid)
    requires k < RQ.NUM_LEVELS && qs[k] != []
    ensures QueuedCount(qs, p) == QueuedCount(qs[k := qs[k][1..]], p) + if qs[k][0] == p then 1 else 0
  {
    assert qs[k] == [qs[k][0]] + qs[k][1..];
    assert multiset(qs[k]) == multiset{qs[k][0]} + multiset(qs[k][1..]);
    assert k == 0 || k == 1 || k == 2 || k == 3;
  }

  lemma QueuedPut(qs: RQ.Levels, q: RQ.Pid, p: RQ.Pid)
    ensures QueuedCount(RQ.Put(qs, RQ.NORMAL_LEVEL, q), p) == QueuedCount(qs, p) + if q == p then 1 else 0
  {
    assert multiset(qs[2] + [q]) == multiset(qs[2]) + multiset{q};
  }

  lemma TakeKeepsPlaces(s: Pool, w: nat, level: Option<nat>, p: RQ.Pid)
    requires w < |s.workers| && s.workers[w].Idle?
    requires level.Some? ==> level.value < RQ.NUM_LEVELS && s.qs[level.value] != []
    ensures Places(TakeWith(s, w, RQ.TakeAt(s.qs, level)), p) == Places(s, p)
  {
    hide HeldCount, QueuedCount;
    if level.Some? {
      QueuedTake(s.qs, level.value, p);
      HeldUpdate(s.workers, w, Phase.Taken(s.qs[level.value][0]), p);
    }
  }

  /** No step creates, loses or doubles a place. */
  lemma StepKeepsPlaces(s: Pool, e: Event, p: RQ.Pid)
    requires Enabled(s, e)
    ensures Places(Apply(s, e), p) == Places(s, p)
  {
    hide HeldCount, QueuedCount, RQ.Highest, RQ.Lowest;
    match e {
      case Dequeue(w) => TakeKeepsPlaces(s, w, RQ.Highest(s.qs, 0), p);
      case Steal(w) => TakeKeepsPlaces(s, w, RQ.Lowest(s.qs, RQ.NUM_LEVELS), p);
      case PutBack(w) =>
        HeldUpdate(s.workers, w, Late(s.workers[w].p), p);
        QueuedPut(s.qs, s.workers[w].p, p);
      case Decide(w) =>
        HeldUpdate(s.workers, w, Idle, p);
        HeldUpdate(s.workers, w, Returning(s.workers[w].p), p);
      case MarkRunning(w) => HeldUpdate(s.workers, w, Executing(s.workers[w].p), p);
      case Slice(w, left, res) => HeldUpdate(s.workers, w, Executed(s.workers[w].p, left, res), p);
      case MarkRunnable(w) => HeldUpdate(s.workers, w, Idle, p);
    }
  }

  ghost predicate Run(s: Pool, es: seq<Event>, s': Pool)
    decreases |es|
  {
    if es == [] then s' == s else Enabled(s, es[0]) && Run(Apply(s, es[0]), es[1..], s')
  }

  lemma {:induction false} RunKeepsPlaces(s: Pool, es: seq<Event>, s': Pool, p: RQ.Pid)
    requires Run(s, es, s')
    ensures Places(s', p) == Places(s, p)
    decreases |es|
  {
    hide Enabled, Apply, Places;
    if es != [] {
      StepKeepsPlaces(s, es[0], p);
      RunKeepsPlaces(Apply(s, es[0]), es[1..], s', p);
    }
  }

  lemma {:induction false} HeldOnce(ws: seq<Phase>, w: nat, p: RQ.Pid)
    requires w < |ws| && Holds(ws[w], p)
    ensures HeldCount(ws, p) >= 1
    decreases |ws|
  {
    if w < |ws| - 1 {
      HeldOnce(ws[..|ws| - 1], w, p);
    }
  }

  lemma {:induction false} HeldTwice(ws: seq<Phase>, w: nat, v: nat, p: RQ.Pid)
    requires w < v < |ws| && Holds(ws[w], p) && Holds(ws[v], p)
    ensures HeldCount(ws, p) >= 2
    decreases |ws|
  {
    if v == |ws| - 1 {
      HeldOnce(ws[..|ws| - 1], w, p);
    } else {
      HeldTwice(ws[..|ws| - 1], w, v, p);
    }
  }

  /** Single ownership: a process enqueued once is, after any interleaving of any number of
      workers, in exactly one place; so no two workers hold it, and it is neither queued nor
      retired while a worker holds it. */
  lemma SingleOwnership(s: Pool, es: seq<Event>, s': Pool, p: RQ.Pid)
    requires Run(s, es, s') && Places(s, p) == 1
    ensures QueuedCount(s'.qs, p) + HeldCount(s'.workers, p) + s'.retired[p] == 1
    ensures forall w, v :: 0 <= w < v < |s'.workers| ==> !(Holds(s'.workers[w], p) && Holds(s'.workers[v], p))
    ensures forall w :: 0 <= w < |s'.workers| && Holds(s'.workers[w], p) ==>
              QueuedCount(s'.qs, p) == 0 && s'.retired[p] == 0
  {
    hide Run, HeldCount, QueuedCount, Holds;
    RunKeepsPlaces(s, es, s', p);
    forall w, v | 0 <= w < v < |s'.workers| ensures !(Holds(s'.workers[w], p) && Holds(s'.workers[v], p)) {
      if Holds(s'.workers[w], p) && Holds(s'.workers[v], p) {
        HeldTwice(s'.workers, w, v, p);
      }
    }
    forall w | 0 <= w < |s'.workers| && Holds(s'.workers[w], p)
      ensures QueuedCount(s'.qs, p) == 0 && s'.retired[p] == 0
    {
      HeldOnce(s'.workers, w, p);
    }
  }

  // ---------- retirement ----------

  /** How the interpreter's slices end (`Scheduler.RunKinds`): the state the slice left, if it
      wrote one, and its result. */
  predicate PlausibleEnd(left: Option<ProcState>, res: Status) {
    match left
    case None => true
    case Some(st) => st.Waiting? || st.Exited? || (st.Runnable? && res.Ok?)
  }

  /** The slice waited, exited or failed. */
  predicate Leaves(left: Option<ProcState>, res: Status) {
    left == Some(Waiting) || left == Some(Exited) || res != Ok
  }

  /** What worker phase `ph` can find in the state field: what it left there itself, or
      RUNNABLE from a late write. */
  predicate Finds(s: Pool, ph: Phase) {
    match ph
    case Executing(p) => StateOf(s, p).Running? || StateOf(s, p).Runnable?
    case Executed(p, left, res) =>
      && PlausibleEnd(left, res)
      && (StateOf(s, p).Runnable? || StateOf(s, p) == if left.Some? then left.value else Running)
    case _ => true
  }

  ghost predicate StateFits(s: Pool) {
    && (forall p :: Places(s, p) <= 1)
    && (forall w :: 0 <= w < |s.workers| ==> Finds(s, s.workers[w]))
  }

  lemma OneHolder(s: Pool, w: nat, v: nat)
    requires (forall p :: Places(s, p) <= 1) && w < |s.workers| && v < |s.workers| && w != v
    requires !s.workers[w].Idle? && !s.workers[w].Late? && !s.workers[v].Idle? && !s.workers[v].Late?
    ensures s.workers[w].p != s.workers[v].p
  {
    hide HeldCount, QueuedCount;
    if s.workers[w].p == s.workers[v].p {
      HeldTwice(s.workers, if w < v then w else v, if w < v then v else w, s.workers[w].p);
      var places := Places(s, s.workers[w].p);
    }
  }

  lemma StepKeepsStateFits(s: Pool, e: Event)
    requires StateFits(s) && Enabled(s, e) && (e.Slice? ==> PlausibleEnd(e.left, e.res))
    ensures StateFits(Apply(s, e))
  {
    hide Places, RQ.Dequeue, RQ.Steal;
    var s' := Apply(s, e);
    forall p ensures Places(s', p) <= 1 {
      StepKeepsPlaces(s, e, p);
    }
    forall v | 0 <= v < |s'.workers| ensures Finds(s', s'.workers[v]) {
      assert v != e.w ==> s'.workers[v] == s.workers[v];
      if v != e.w && (e.MarkRunning? || e.Slice?) && (s.workers[v].Executing? || s.workers[v].Executed?) {
        OneHolder(s, e.w, v);
      }
      assert v < |s.workers| && Finds(s, s.workers[v]);
    }
  }

  ghost predicate Plausible(es: seq<Event>) {
    forall k :: 0 <= k < |es| && es[k].Slice? ==> PlausibleEnd(es[k].left, es[k].res)
  }

  lemma {:induction false} RunKeepsStateFits(s: Pool, es: seq<Event>, s': Pool)
    requires StateFits(s) && Run(s, es, s') && Plausible(es)
    ensures StateFits(s')
    decreases |es|
  {
    hide Enabled, Apply, StateFits;
    if es != [] {
      StepKeepsStateFits(s, es[0]);
      RunKeepsStateFits(Apply(s, es[0]), es[1..], s');
    }
  }

  /** In every interleaving a process retires only after a slice that waited, exited or failed. */
  lemma RetiresOnlyAfterLeaving(s: Pool, es: seq<Event>, s': Pool, w: nat)
    requires StateFits(s) && Run(s, es, s') && Plausible(es)
    requires Enabled(s', Decide(w)) && Apply(s', Decide(w)).retired != s'.retired
    ensures Leaves(s'.workers[w].left, s'.workers[w].res)
  {
    hide Run;
    RunKeepsStateFits(s, es, s');
    assert Finds(s', s'.workers[w]);
  }

  /** The converse fails: enqueueing writes the state after it has released the lock.  Worker 0
      puts process 7 back and is delayed; worker 1 takes it and runs it to its exit; then the
      late RUNNABLE lands, and worker 1 puts the exited process back into the queue. */
  lemma ExitedProcessIsQueuedAgain() returns (s': Pool)
    ensures var first := [Dequeue(0), MarkRunning(0), Slice(0, Some(Runnable), Ok), Decide(0), PutBack(0)];
            var second := [Dequeue(1), MarkRunning(1), Slice(1, Some(Exited), Status.Halt),
                           MarkRunnable(0), Decide(1), PutBack(1)];
            && Run(Seven([Idle, Idle], map[]), first + second, s')
            && s'.qs[RQ.NORMAL_LEVEL] == [7] && s'.retired == multiset{}
  {
    hide Run, RQ.Dequeue, RQ.Put;
    s' := Seven([Idle, Late(7)], map[7 := Runnable]);
    var s5 := Seven([Late(7), Idle], map[7 := Runnable]);
    SecondHalf(s5, s');
    FirstHalf(s5, [Dequeue(1), MarkRunning(1), Slice(1, Some(Exited), Status.Halt),
                   MarkRunnable(0), Decide(1), PutBack(1)], s');
  }

  lemma FirstHalf(s5: Pool, es: seq<Event>, s': Pool)
    requires s5 == Seven([Late(7), Idle], map[7 := Runnable]) && Run(s5, es, s')
    ensures Run(Seven([Idle, Idle], map[]),
                [Dequeue(0), MarkRunning(0), Slice(0, Some(Runnable), Ok), Decide(0), PutBack(0)] + es, s')
  {
    hide RQ.Dequeue, RQ.Put, Run;
    SevenIsNext();
    var s0 := Seven([Idle, Idle], map[]);
    var s1 := None7([Phase.Taken(7), Idle], map[]);
    var s2 := None7([Executing(7), Idle], map[7 := Running]);
    var e2 := PreemptedAndPutBack(s2, s5, es, s');
    var e1 := RunStep(s1, MarkRunning(0), s2, e2, s');
    var e0 := RunStep(s0, Dequeue(0), s1, e1, s');
    assert e0 == [Dequeue(0), MarkRunning(0), Slice(0, Some(Runnable), Ok), Decide(0), PutBack(0)] + es;
  }

  lemma PreemptedAndPutBack(s2: Pool, s5: Pool, es: seq<Event>, s': Pool) returns (e2: seq<Event>)
    requires s2 == None7([Executing(7), Idle], map[7 := Running])
    requires s5 == Seven([Late(7), Idle], map[7 := Runnable]) && Run(s5, es, s')
    ensures e2 == [Slice(0, Some(Runnable), Ok), Decide(0), PutBack(0)] + es && Run(s2, e2, s')
  {
    hide RQ.Dequeue, RQ.Put, Run;
    SevenIsNext();
    var s3 := None7([Executed(7, Some(Runnable), Ok), Idle], map[7 := Runnable]);
    var s4 := None7([Returning(7), Idle], map[7 := Runnable]);
    var e4 := RunStep(s4, PutBack(0), s5, es, s');
    var e3 := RunStep(s3, Decide(0), s4, e4, s');
    e2 := RunStep(s2, Slice(0, Some(Runnable), Ok), s3, e3, s');
  }

  lemma SecondHalf(s5: Pool, s': Pool)
    requires s5 == Seven([Late(7), Idle], map[7 := Runnable])
    requires s' == Seven([Idle, Late(7)], map[7 := Runnable])
    ensures Run(s5, [Dequeue(1), MarkRunning(1), Slice(1, Some(Exited), Status.Halt),
                     MarkRunnable(0), Decide(1), PutBack(1)], s')
  {
    hide RQ.Dequeue, RQ.Put, Run;
    SevenIsNext();
    var s6 := None7([Late(7), Phase.Taken(7)], map[7 := Runnable]);
    var s7 := None7([Late(7), Executing(7)], map[7 := Running]);
    var s8 := None7([Late(7), Executed(7, Some(Exited), Status.Halt)], map[7 := Exited]);
    LateWriteLands(s8, s');
    var e7 := RunStep(s7, Slice(1, Some(Exited), Status.Halt), s8, [MarkRunnable(0), Decide(1), PutBack(1)], s');
    var e6 := RunStep(s6, MarkRunning(1), s7, e7, s');
    var e5 := RunStep(s5, Dequeue(1), s6, e6, s');
    assert e5 == [Dequeue(1), MarkRunning(1), Slice(1, Some(Exited), Status.Halt),
                  MarkRunnable(0), Decide(1), PutBack(1)];
  }

  lemma LateWriteLands(s8: Pool, s': Pool)
    requires s8 == None7([Late(7), Executed(7, Some(Exited), Status.Halt)], map[7 := Exited])
    requires s' == Seven([Idle, Late(7)], map[7 := Runnable])
    ensures Run(s8, [MarkRunnable(0), Decide(1), PutBack(1)], s')
  {
    assert Run(s', [], s');
    hide RQ.Dequeue, RQ.Put, Run;
    SevenIsNext();
    var s9 := None7([Idle, Executed(7, Some(Exited), Status.Halt)], map[7 := Runnable]);
    var s10 := None7([Idle, Returning(7)], map[7 := Runnable]);
    var e10 := RunStep(s10, PutBack(1), s', [], s');
    var e9 := RunStep(s9, Decide(1), s10, e10, s');
    var e8 := RunStep(s8, MarkRunnable(0), s9, e9, s');
    assert e8 == [MarkRunnable(0), Decide(1), PutBack(1)];
  }

  function Seven(ws: seq<Phase>, state: map<RQ.Pid, ProcState>): Pool {
    Pool([[], [], [7], []], ws, state, multiset{})
  }

  function None7(ws: seq<Phase>, state: map<RQ.Pid, ProcState>): Pool {
    Pool([[], [], [], []], ws, state, multiset{})
  }

  lemma SevenIsNext()
    ensures RQ.Dequeue([[], [], [7], []]) == RQ.Taken.Taken(7, 2, [[], [], [], []])
    ensures RQ.Put([[], [], [], []], 2, 7) == [[], [], [7], []]
  {
    var empty: RQ.Levels := [[], [], [], []];
    assert empty[2] + [7] == [7] && empty[2 := [7]] == [[], [], [7], []];
    var qs: RQ.Levels := [[], [], [7], []];
    assert RQ.Highest(qs, 0) == Some(2);
    assert qs[2][1..] == [];
    assert qs[2 := []] == [[], [], [], []];
  }

  lemma RunStep(s: Pool, e: Event, t: Pool, es: seq<Event>, s': Pool) returns (es': seq<Event>)
    requires Enabled(s, e) && Apply(s, e) == t && Run(t, es, s')
    ensures es' == [e] + es && Run(s, es', s')
  {
    es' := [e] + es;
    assert es'[1..] == es;
  }
}
