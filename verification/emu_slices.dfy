/** Time slices: how far one runs, and when cutting a run into slices does not show. */
module EmuSlices {
  import opened BeamCore
  import opened ErlProcess
  import opened BeamEmu

  datatype EndKind = Finished | Preempted | Waited | Stopped

  /** How a slice ended: the machine, the process state it set if any, the result, the value
      it delivered if any, and how many instructions it executed. */
  datatype End = End(kind: EndKind, s: State, state: Option<ProcState>, res: Status, out: Option<Term>, steps: nat)

  /** The dispatch loop with `r` reductions left. */
  function Run(env: Env, s: State, r: int): (e: End)
    requires WfCode(env.code) && WfState(s)
    ensures WfState(e.s)
    decreases if r > 0 then r else 0
  {
    if s.ip >= |env.code| then End(Finished, s, None, Ok, Some(s.x[0]), 0)
    else if r <= 1 then End(Preempted, s, Some(Runnable), Ok, None, 0)
    else
      StepWf(env, s);
      match Step(env, s)
      case Next(s') => var e := Run(env, s', r - 1); e.(steps := e.steps + 1)
      case Stop(s', state, res, out) =>
        End(if state == Some(Waiting) then Waited else Stopped, s', state, res, out, 1)
  }

  /** A slice executes at most r-1 instructions, exactly r-1 when it is cut short, and none
      when it starts with no budget.  It ends on every code, loops and all. */
  lemma {:induction false} SliceBound(env: Env, s: State, r: int)
    requires WfCode(env.code) && WfState(s)
    ensures var e := Run(env, s, r);
            && (r <= 1 ==> e.steps == 0)
            && (r >= 1 ==> e.steps <= r - 1)
            && (r >= 1 && e.kind.Preempted? ==> e.steps == r - 1)
    decreases if r > 0 then r else 0
  {
    hide Step;
    if s.ip < |env.code| && r > 1 {
      StepWf(env, s);
      if Step(env, s).Next? {
        SliceBound(env, Step(env, s).s, r - 1);
      }
    }
  }

  // ---------- entering and leaving the loop ----------

  /** Entry: an all-zero frame starts with the code length as its return address. */
  function Enter(env: Env, s: State): State {
    if s.cp == 0 && s.ip == 0 then s.(cp := |env.code|) else s
  }

  lemma EnterKeeps(env: Env, s: State)
    requires WfCode(env.code) && WfState(s)
    ensures WfState(Enter(env, s)) && Enter(env, s).ip == s.ip && (Enter(env, s).cp != 0 || Enter(env, s).ip != 0)
  {
  }

  /** Which returns leave the instruction pointer in the process record.  `saveIp` adds the
      preempting return, which does not store it as written. */
  predicate StoresIp(kind: EndKind, saveIp: bool) {
    kind.Finished? || kind.Waited? || (saveIp && kind.Preempted?)
  }

  /** One call of the interpreter with budget `r`. */
  function Execute(env: Env, s: State, r: int, saveIp: bool): (e: End)
    requires WfCode(env.code) && WfState(s)
    ensures WfState(e.s)
  {
    var e := Run(env, Enter(env, s), r);
    if StoresIp(e.kind, saveIp) then e else e.(s := e.s.(ip := s.ip))
  }

  /** Calls with the budgets `bs`, as long as they are preempted. */
  function Slices(env: Env, s: State, bs: seq<int>, saveIp: bool): (e: End)
    requires WfCode(env.code) && WfState(s) && bs != []
    ensures WfState(e.s)
    decreases |bs|
  {
    var e := Execute(env, s, bs[0], saveIp);
    if e.kind.Preempted? && |bs| > 1 then
      var rest := Slices(env, e.s, bs[1..], saveIp);
      rest.(steps := e.steps + rest.steps)
    else e
  }

  /** No slice is cut with both `cp` and `ip` zero, the frame that entry mistakes for a new one. */
  predicate CutsKeepFrame(env: Env, s: State, bs: seq<int>)
    requires WfCode(env.code) && WfState(s) && bs != []
    decreases |bs|
  {
    var e := Execute(env, s, bs[0], true);
    e.kind.Preempted? && |bs| > 1 ==> (e.s.cp != 0 || e.s.ip != 0) && CutsKeepFrame(env, e.s, bs[1..])
  }

  /** The budget of one slice that executes as many instructions as the slices `bs` can. */
  function Total(bs: seq<int>): int {
    if bs == [] then 1 else bs[0] - 1 + Total(bs[1..])
  }

  lemma TotalPositive(bs: seq<int>)
    requires forall k :: 0 <= k < |bs| ==> bs[k] >= 1
    ensures Total(bs) >= 1
  {
  }

  /** Cutting the loop after `a - 1` instructions and going on for `b - 1` more. */
  lemma {:induction false} RunSplit(env: Env, s: State, a: int, b: int)
    requires WfCode(env.code) && WfState(s) && a >= 1 && b >= 1
    ensures var e := Run(env, s, a);
            if e.kind.Preempted? then
              var f := Run(env, e.s, b); Run(env, s, a + b - 1) == f.(steps := e.steps + f.steps)
            else Run(env, s, a + b - 1) == e
    decreases a
  {
    hide Step;
    if s.ip < |env.code| && a > 1 {
      StepWf(env, s);
      if Step(env, s).Next? {
        RunSplit(env, Step(env, s).s, a - 1, b);
      }
    }
  }

  /** The same end, but for the instruction pointer of a process that will not run again. */
  predicate SameEnd(e: End, f: End) {
    && e.s.(ip := 0) == f.s.(ip := 0)
    && (!e.kind.Stopped? ==> e.s.ip == f.s.ip)
    && e.(s := f.s) == f
  }

  /** Preemption is transparent when the preempting return stores `ip`: any cutting gives the
      registers, stack, frames, mailbox, result and instruction count of the uncut run. */
  lemma {:induction false} PreemptionTransparent(env: Env, s: State, bs: seq<int>)
    requires WfCode(env.code) && WfState(s) && bs != []
    requires forall k :: 0 <= k < |bs| ==> bs[k] >= 1
    requires CutsKeepFrame(env, s, bs)
    ensures SameEnd(Slices(env, s, bs, true), Execute(env, s, Total(bs), true))
    decreases |bs|
  {
    hide Run;
    var e := Execute(env, s, bs[0], true);
    TotalPositive(bs[1..]);
    RunSplit(env, Enter(env, s), bs[0], Total(bs[1..]));
    if e.kind.Preempted? && |bs| > 1 {
      PreemptionTransparent(env, e.s, bs[1..]);
    } else if |bs| == 1 {
      assert Total(bs[1..]) == 1;
    }
  }

  /** Where a cut is seen: going on after it is the uncut run for every further budget exactly
      when it left `cp` and `ip` not both zero. */
  lemma CutIsSeamless(env: Env, s: State, a: int)
    requires WfCode(env.code) && WfState(s) && a >= 1 && Execute(env, s, a, true).kind.Preempted?
    ensures var t := Execute(env, s, a, true).s;
            t.cp != 0 || t.ip != 0
            <==> forall b: int :: b >= 1 ==> SameEnd(Slices(env, s, [a, b], true), Execute(env, s, a + b - 1, true))
  {
    hide Run, Slices, Execute, SameEnd, Total, CutsKeepFrame;
    var t := Execute(env, s, a, true).s;
    if t.cp != 0 || t.ip != 0 {
      forall b: int | b >= 1 ensures SameEnd(Slices(env, s, [a, b], true), Execute(env, s, a + b - 1, true)) {
        TwoSlices(env, s, a, b);
        PreemptionTransparent(env, s, [a, b]);
      }
    } else {
      LostFrame(env, s, a);
      assert !SameEnd(Slices(env, s, [a, 1], true), Execute(env, s, a + 1 - 1, true));
    }
  }

  lemma LostFrame(env: Env, s: State, a: int)
    requires WfCode(env.code) && WfState(s) && a >= 1 && Execute(env, s, a, true).kind.Preempted?
    requires Execute(env, s, a, true).s.cp == 0 && Execute(env, s, a, true).s.ip == 0
    ensures !SameEnd(Slices(env, s, [a, 1], true), Execute(env, s, a, true))
  {
    var e := Execute(env, s, a, true);
    EmptySlice(env, e.s);
    hide Execute, Run;
    assert [a, 1][1..] == [1];
    assert Slices(env, e.s, [1], true) == Execute(env, e.s, 1, true);
    assert Slices(env, s, [a, 1], true).s.cp == |env.code|;
  }

  lemma TwoSlices(env: Env, s: State, a: int, b: int)
    requires WfCode(env.code) && WfState(s) && a >= 1 && Execute(env, s, a, true).kind.Preempted?
    requires Execute(env, s, a, true).s.cp != 0 || Execute(env, s, a, true).s.ip != 0
    ensures CutsKeepFrame(env, s, [a, b]) && Total([a, b]) == a + b - 1
  {
    hide Execute;
    assert [a, b][1..] == [b] && [b][1..] == [];
    assert Total([b]) == b;
    assert CutsKeepFrame(env, Execute(env, s, a, true).s, [b]);
  }

  lemma EmptySlice(env: Env, s: State)
    requires WfCode(env.code) && WfState(s) && s.ip == 0
    ensures Execute(env, s, 1, true).kind.Preempted? && Execute(env, s, 1, true).s == Enter(env, s)
  {
  }
}
