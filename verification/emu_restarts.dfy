/** The preempting return as the source has it: the instruction pointer stays where the slice
    began. */
module EmuRestarts {
  import opened BeamCore
  import opened ErlProcess
  import opened MailboxModel
  import opened BeamEmu
  import opened EmuSlices

  /** However many slices a process has had, while it is still being preempted it is where it
      was before the first. */
  lemma {:induction false} AsWrittenRestarts(env: Env, s: State, bs: seq<int>)
    requires WfCode(env.code) && WfState(s) && bs != []
    ensures Slices(env, s, bs, false).kind.Preempted? ==> Slices(env, s, bs, false).s.ip == s.ip
    decreases |bs|
  {
    hide Run;
    var e := Execute(env, s, bs[0], false);
    if e.kind.Preempted? && |bs| > 1 {
      AsWrittenRestarts(env, e.s, bs[1..]);
    }
  }

  /** A process whose first slice is not cut is served as it was meant to be. */
  lemma UncutIsMeant(env: Env, s: State, bs: seq<int>)
    requires WfCode(env.code) && WfState(s) && bs != [] && !Execute(env, s, bs[0], true).kind.Preempted?
    ensures Slices(env, s, bs, false) == Slices(env, s, bs, true)
  {
    hide Run;
  }

  // ---------- where a slice leaves its process ----------

  /** Behind the last instruction, at its WAIT, or cut short somewhere in between; a process that
      stopped for good is left where the slice found it. */
  lemma WhereSlicesEnd(env: Env, s: State, r: int, saveIp: bool)
    requires WfCode(env.code) && WfState(s)
    ensures var e := Execute(env, s, r, saveIp);
            && (e.kind.Finished? ==> e.s.ip >= |env.code| && e.out == Some(e.s.x[0]))
            && (e.kind.Waited? ==> e.s.ip < |env.code| && env.code[e.s.ip] == Wait && e.out == None)
            && (e.kind.Preempted? && saveIp ==> e.s.ip < |env.code|)
            && (e.kind.Preempted? && !saveIp ==> e.s.ip == s.ip)
            && (e.kind.Stopped? ==> e.s.ip == s.ip)
  {
    EnterKeeps(env, s);
    RunEnds(env, Enter(env, s), r);
    hide Run;
  }

  lemma {:induction false} RunEnds(env: Env, s: State, r: int)
    requires WfCode(env.code) && WfState(s)
    ensures var e := Run(env, s, r);
            && (e.kind.Finished? ==> e.s.ip >= |env.code| && e.out == Some(e.s.x[0]))
            && (e.kind.Waited? ==> e.s.ip < |env.code| && env.code[e.s.ip] == Wait && e.out == None)
            && (e.kind.Preempted? ==> e.s.ip < |env.code|)
    decreases if r > 0 then r else 0
  {
    hide Step, WfState;
    if s.ip < |env.code| && r > 1 {
      StepWf(env, s);
      if Step(env, s).Next? {
        RunEnds(env, Step(env, s).s, r - 1);
      } else if Step(env, s).state == Some(Waiting) {
        WaitingIsWait(env, s);
      }
    }
  }

  lemma WaitingIsWait(env: Env, s: State)
    requires WfCode(env.code) && WfState(s) && s.ip < |env.code| && Step(env, s).Stop? && Step(env, s).state == Some(Waiting)
    ensures env.code[s.ip] == Wait && Step(env, s) == Stop(s, Some(Waiting), Ok, None)
  {
    hide FindLabel, Deref, TupleAt, TupleArity, TableTarget, Closure, AllocateFrame, PopFrame, Arith, MakeClosure;
  }

  /** The process after further slices, each with what its mailbox holds by then and its budget. */
  function Woken(env: Env, s: State, wakes: seq<(Mbox, int)>, saveIp: bool): (t: State)
    requires WfCode(env.code) && WfState(s) && forall k :: 0 <= k < |wakes| ==> InQueue(wakes[k].0)
    ensures WfState(t)
    decreases |wakes|
  {
    if wakes == [] then s
    else
      assert InQueue(wakes[0].0);
      Woken(env, Execute(env, s.(mbox := wakes[0].0), wakes[0].1, saveIp).s, wakes[1..], saveIp)
  }

  /** The slice of process `t` with this mailbox and budget is one WAIT. */
  predicate OnlyWaits(env: Env, t: State, wake: (Mbox, int), saveIp: bool)
    requires WfCode(env.code) && WfState(t) && InQueue(wake.0)
  {
    var e := Execute(env, t.(mbox := wake.0), wake.1, saveIp);
    e.kind.Waited? && e.steps == 1 && e.state == Some(Waiting)
  }

  /** A slice that waited leaves the process at its WAIT, so however often it is run again and
      whatever has arrived, it executes that WAIT and nothing else. */
  lemma {:induction false} WaitLasts(env: Env, s: State, wakes: seq<(Mbox, int)>, saveIp: bool)
    requires WfCode(env.code) && WfState(s) && s.ip < |env.code| && env.code[s.ip] == Wait && (s.cp != 0 || s.ip != 0)
    requires forall k :: 0 <= k < |wakes| ==> InQueue(wakes[k].0)
    ensures Woken(env, s, wakes, saveIp) == if wakes == [] then s else s.(mbox := wakes[|wakes| - 1].0)
    ensures forall k :: 0 <= k < |wakes| && wakes[k].1 >= 2 ==> OnlyWaits(env, Woken(env, s, wakes[..k], saveIp), wakes[k], saveIp)
    decreases |wakes|
  {
    hide Execute, Woken, OnlyWaits, WfCode, WfState, InQueue;
    if wakes == [] {
      WokenNever(env, s, saveIp);
    } else {
      var last := wakes[|wakes| - 1];
      WokenSnoc(env, s, wakes, saveIp);
      assert InQueue(last.0);
      WaitLasts(env, s, wakes[..|wakes| - 1], saveIp);
      var t := Woken(env, s, wakes[..|wakes| - 1], saveIp);
      WaitsAgain(env, t, last, saveIp);
      forall k | 0 <= k < |wakes| && wakes[k].1 >= 2
        ensures OnlyWaits(env, Woken(env, s, wakes[..k], saveIp), wakes[k], saveIp)
      {
        if k < |wakes| - 1 {
          assert wakes[..|wakes| - 1][..k] == wakes[..k] && wakes[..|wakes| - 1][k] == wakes[k];
        }
      }
    }
  }

  lemma {:induction false} WokenSnoc(env: Env, s: State, wakes: seq<(Mbox, int)>, saveIp: bool)
    requires WfCode(env.code) && WfState(s) && wakes != [] && forall k :: 0 <= k < |wakes| ==> InQueue(wakes[k].0)
    ensures var n, w := |wakes| - 1, wakes[|wakes| - 1];
            Woken(env, s, wakes, saveIp) == Execute(env, Woken(env, s, wakes[..n], saveIp).(mbox := w.0), w.1, saveIp).s
    decreases |wakes|
  {
    hide Execute;
    var n := |wakes| - 1;
    assert InQueue(wakes[0].0);
    if n > 0 {
      WokenSnoc(env, Execute(env, s.(mbox := wakes[0].0), wakes[0].1, saveIp).s, wakes[1..], saveIp);
      assert wakes[..n][1..] == wakes[1..][..n - 1];
    }
  }

  lemma WokenNever(env: Env, s: State, saveIp: bool)
    requires WfCode(env.code) && WfState(s)
    ensures Woken(env, s, [], saveIp) == s
  {
  }

  lemma WaitsAgain(env: Env, t: State, wake: (Mbox, int), saveIp: bool)
    requires WfCode(env.code) && WfState(t) && t.ip < |env.code| && env.code[t.ip] == Wait && (t.cp != 0 || t.ip != 0)
    requires InQueue(wake.0)
    ensures Execute(env, t.(mbox := wake.0), wake.1, saveIp).s == t.(mbox := wake.0)
    ensures wake.1 >= 2 ==> OnlyWaits(env, t, wake, saveIp)
  {
    var s := t.(mbox := wake.0);
    assert WfState(s) && Step(env, s) == Stop(s, Some(Waiting), Ok, None);
    hide Step;
  }

  // ---------- straight code ----------

  /** Instructions that always go on with the next one. */
  predicate FallsThrough(i: Instr) {
    || i.Label? || i.Move? || i.Add? || i.Sub? || i.Mul? || i.Send? || i.RemoveMessage?
    || i.TryCase? || i.TryEnd? || i.GetTupleElement? || i.MakeFun2?
  }

  predicate Straight(code: seq<Instr>, lo: nat, hi: nat) {
    hi <= |code| && forall k :: lo <= k < hi ==> FallsThrough(code[k])
  }

  lemma StepFallsThrough(env: Env, s: State)
    requires WfCode(env.code) && WfState(s) && s.ip < |env.code| && FallsThrough(env.code[s.ip])
    ensures Step(env, s).Next? && WfState(Step(env, s).s)
    ensures Step(env, s).s.ip == s.ip + 1 && Step(env, s).s.cp == s.cp
  {
    StepWf(env, s);
    hide FindLabel, Deref, TupleAt, TupleArity, TableTarget, Closure;
  }

  /** A run that stays on straight code is cut exactly when its budget does not reach the end. */
  lemma {:induction false} RunStraight(env: Env, s: State, r: int, hi: nat)
    requires WfCode(env.code) && WfState(s) && Straight(env.code, s.ip, hi) && s.ip < hi
    ensures var e := Run(env, s, r);
            && (r <= hi - s.ip ==> e.kind.Preempted? && e.s.cp == s.cp && e.s.ip == if r > 1 then s.ip + r - 1 else s.ip)
            && (hi == |env.code| && r > hi - s.ip ==> e.kind.Finished?)
    decreases hi - s.ip
  {
    hide Step, WfState;
    if r > 1 {
      StepFallsThrough(env, s);
      var t := Step(env, s).s;
      if t.ip < hi {
        RunStraight(env, t, r - 1, hi);
      }
    }
  }

  /** As written, a process that begins with straight code no shorter than its budgets is
      preempted for ever, whatever comes behind that code. */
  lemma {:induction false} AsWrittenNeverEnds(env: Env, s: State, bs: seq<int>, hi: nat)
    requires WfCode(env.code) && WfState(s) && bs != [] && Straight(env.code, s.ip, hi) && s.ip < hi
    requires forall k :: 0 <= k < |bs| ==> bs[k] <= hi - s.ip
    ensures Slices(env, s, bs, false).kind.Preempted?
    decreases |bs|
  {
    hide Run, WfState;
    EnterKeeps(env, s);
    RunStraight(env, Enter(env, s), bs[0], hi);
    if |bs| > 1 {
      AsWrittenNeverEnds(env, Execute(env, s, bs[0], false).s, bs[1..], hi);
    }
  }

  /** Code that is straight to its end: as written it ends exactly when one budget is longer
      than what is left of it; as meant, when the budgets together are. */
  lemma {:induction false} StraightCodeEndsIff(env: Env, s: State, bs: seq<int>)
    requires WfCode(env.code) && WfState(s) && bs != [] && Straight(env.code, s.ip, |env.code|) && s.ip < |env.code|
    ensures Slices(env, s, bs, false).kind.Preempted? <==> forall k :: 0 <= k < |bs| ==> bs[k] <= |env.code| - s.ip
    decreases |bs|
  {
    hide Run, WfState;
    var n := |env.code| - s.ip;
    EnterKeeps(env, s);
    RunStraight(env, Enter(env, s), bs[0], |env.code|);
    if bs[0] <= n && |bs| > 1 {
      var rest := bs[1..];
      StraightCodeEndsIff(env, Execute(env, s, bs[0], false).s, rest);
      assert forall k :: 1 <= k < |bs| ==> bs[k] == rest[k - 1];
    }
  }

  lemma {:induction false} MeantEndsIff(env: Env, s: State, bs: seq<int>)
    requires WfCode(env.code) && WfState(s) && bs != [] && Straight(env.code, s.ip, |env.code|) && s.ip < |env.code|
    requires forall k :: 0 <= k < |bs| ==> bs[k] >= 1
    ensures Slices(env, s, bs, true).kind.Preempted? <==> Total(bs) <= |env.code| - s.ip
    decreases |bs|
  {
    hide Run, WfState;
    EnterKeeps(env, s);
    RunStraight(env, Enter(env, s), bs[0], |env.code|);
    TotalPositive(bs[1..]);
    if bs[0] <= |env.code| - s.ip && |bs| > 1 {
      MeantEndsIff(env, Execute(env, s, bs[0], true).s, bs[1..]);
    }
  }

  // ---------- the smallest failing inputs ----------

  lemma SmallSuccessor(v: int)
    requires 0 <= v <= 1
    ensures MakeSmall(SmallOf(Small(v)) + SmallOf(Small(1))) == Small(v + 1)
  {
  }

  lemma RunAddHalt(env: Env, s: State, v: int)
    requires env.code == [Add(0, 1, 0), HaltOp] && WfState(s)
    requires s.ip == 0 && 0 <= v <= 1 && s.x[0] == Small(v) && s.x[1] == Small(1)
    ensures var t := s.(x := s.x[0 := Small(v + 1)], ip := 1);
            && Run(env, s, 3).out == Some(Small(v + 1))
            && Run(env, s, 2) == End(Preempted, t, Some(Runnable), Ok, None, 1)
            && Run(env, t, 3).out == Some(Small(v + 1))
  {
    hide SmallOf, MakeSmall;
    SmallSuccessor(v);
    var t := s.(x := s.x[0 := Small(v + 1)], ip := 1);
    assert Step(env, s) == Next(t);
    assert Step(env, t) == Stop(t, Some(Exited), Halt, Some(Small(v + 1)));
    assert Run(env, t, 1) == End(Preempted, t, Some(Runnable), Ok, None, 0);
  }

  /** `x0 := x0 + x1; halt` cut after the addition: the uncut run delivers 1, the code as
      written adds twice and delivers 2. */
  lemma AsWrittenRepeatsWork(env: Env, s: State)
    requires env.code == [Add(0, 1, 0), HaltOp] && WfState(s)
    requires s.ip == 0 && s.cp == 0 && s.x[0] == Small(0) && s.x[1] == Small(1)
    ensures Execute(env, s, 3, false).out == Some(Small(1))
    ensures Slices(env, s, [2, 3], true).out == Some(Small(1))
    ensures Slices(env, s, [2, 3], false).out == Some(Small(2))
  {
    hide Run;
    var t := Enter(env, s);
    RunAddHalt(env, t, 0);
    var cut := t.(x := t.x[0 := Small(1)], ip := 0);
    RunAddHalt(env, cut, 1);
    assert [2, 3][1..] == [3];
    assert Execute(env, s, 2, false).s == cut;
  }

  /** A frame popped with a size it was not pushed with: a new process that runs this code is
      cut after three instructions with `cp` and `ip` zero. */
  lemma CutAtZero(env: Env, s: State)
    requires env.code == [Allocate(1), Deallocate(0), Return] && WfState(s)
    requires s.ip == 0 && s.cp == 0 && s.heapTop == 0 && s.stackTop == |s.heap| >= 2
    ensures var e := Execute(env, s, 4, true);
            e.kind.Preempted? && e.s.cp == 0 && e.s.ip == 0
    ensures !SameEnd(Slices(env, s, [4, 1], true), Execute(env, s, 4, true))
  {
    hide Run, Slices, SameEnd;
    EnterKeeps(env, s);
    RunsToZero(env, Enter(env, s));
    LostFrame(env, s, 4);
  }

  lemma RunsToZero(env: Env, s: State)
    requires env.code == [Allocate(1), Deallocate(0), Return] && WfState(s)
    requires s.ip == 0 && s.heapTop == 0 && s.stackTop == |s.heap| >= 2
    ensures Run(env, s, 4).kind.Preempted? && Run(env, s, 4).s.cp == 0 && Run(env, s, 4).s.ip == 0
  {
    PushesZero(env, s);
    var s1 := Step(env, s).s;
    PopsZero(env, s1);
    var s2 := Step(env, s1).s;
    ReturnsToZero(env, s2);
    var s3 := Step(env, s2).s;
    hide Step, WfState;
    CutHere(env, s3);
    OneMore(env, s2, 2);
    OneMore(env, s1, 3);
    OneMore(env, s, 4);
  }

  lemma CutHere(env: Env, s: State)
    requires WfCode(env.code) && WfState(s) && s.ip < |env.code|
    ensures Run(env, s, 1) == End(Preempted, s, Some(Runnable), Ok, None, 0)
  {
  }

  lemma OneMore(env: Env, s: State, r: int)
    requires WfCode(env.code) && WfState(s) && s.ip < |env.code| && r > 1
    requires Step(env, s).Next? && WfState(Step(env, s).s)
    ensures Run(env, s, r).kind == Run(env, Step(env, s).s, r - 1).kind && Run(env, s, r).s == Run(env, Step(env, s).s, r - 1).s
  {
    hide Step;
  }

  lemma PushesZero(env: Env, s: State)
    requires env.code == [Allocate(1), Deallocate(0), Return] && WfState(s)
    requires s.ip == 0 && s.heapTop == 0 && s.stackTop == |s.heap| >= 2
    ensures Step(env, s).Next? && WfState(Step(env, s).s)
    ensures var t := Step(env, s).s;
            t.ip == 1 && t.stackTop < |t.heap| && t.heap[t.stackTop] == Raw(0)
  {
    StepWf(env, s);
  }

  lemma PopsZero(env: Env, s: State)
    requires env.code == [Allocate(1), Deallocate(0), Return] && WfState(s)
    requires s.ip == 1 && s.stackTop < |s.heap| && s.heap[s.stackTop] == Raw(0)
    ensures Step(env, s).Next? && WfState(Step(env, s).s) && Step(env, s).s.ip == 2 && Step(env, s).s.cp == 0
  {
    StepWf(env, s);
  }

  lemma ReturnsToZero(env: Env, s: State)
    requires env.code == [Allocate(1), Deallocate(0), Return] && WfState(s) && s.ip == 2 && s.cp == 0
    ensures Step(env, s) == Next(s.(ip := 0)) && WfState(s.(ip := 0))
  {
  }
}
