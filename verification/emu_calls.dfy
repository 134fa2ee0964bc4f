/** Calls, tail calls and slices over whole runs of frame-disciplined code. */
module EmuCalls {
  import opened BeamEmu
  import opened EmuSlices
  import opened EmuFrames

  /** `k` instructions run one after the other, none of them ending the slice. */
  predicate Goes(env: Env, s: State, k: nat)
    requires WfCode(env.code) && WfState(s)
    decreases k
  {
    k == 0 || (s.ip < |env.code| && Step(env, s).Next? && (StepWf(env, s); Goes(env, Step(env, s).s, k - 1)))
  }

  function After(env: Env, s: State, k: nat): (t: State)
    requires WfCode(env.code) && WfState(s) && Goes(env, s, k)
    ensures WfState(t)
    decreases k
  {
    if k == 0 then s else StepWf(env, s); After(env, Step(env, s).s, k - 1)
  }

  /** One instruction takes `s` to `t`. */
  predicate StepsTo(env: Env, s: State, t: State)
    requires WfCode(env.code)
  {
    WfState(s) && WfState(t) && s.ip < |env.code| && Step(env, s) == Next(t)
  }

  lemma GoesOn(env: Env, s: State, t: State, k: nat)
    requires WfCode(env.code) && StepsTo(env, s, t) && Goes(env, t, k)
    ensures Goes(env, s, k + 1) && After(env, s, k + 1) == After(env, t, k)
  {
    hide Step;
  }

  lemma FourSteps(env: Env, s0: State, s1: State, s2: State, s3: State, s4: State, k: nat)
    requires WfCode(env.code)
    requires StepsTo(env, s0, s1) && StepsTo(env, s1, s2) && StepsTo(env, s2, s3) && StepsTo(env, s3, s4)
    requires Goes(env, s4, k)
    ensures Goes(env, s0, k + 4) && After(env, s0, k + 4) == After(env, s4, k)
  {
    hide Goes, After;
    GoesOn(env, s3, s4, k);
    GoesOn(env, s2, s3, k + 1);
    GoesOn(env, s1, s2, k + 2);
    GoesOn(env, s0, s1, k + 3);
  }

  lemma NoneLeft(env: Env, s: State)
    requires WfCode(env.code) && WfState(s)
    ensures Goes(env, s, 0) && After(env, s, 0) == s
  {
    hide Step;
  }

  lemma StepsToWf(env: Env, s: State, t: State)
    requires WfCode(env.code) && StepsTo(env, s, t)
    ensures WfState(s) && WfState(t)
  {
  }

  lemma StepLabel(env: Env, u: State, id: nat)
    requires WfCode(env.code) && WfState(u) && u.ip < |env.code| && env.code[u.ip] == Label(id)
    ensures StepsTo(env, u, u.(ip := u.ip + 1))
  {
  }

  lemma StepCall(env: Env, u: State, target: nat)
    requires WfCode(env.code) && WfState(u) && u.ip < |env.code| && env.code[u.ip] == Call(target)
    ensures StepsTo(env, u, u.(cp := u.ip + 1, ip := target))
  {
  }

  lemma StepReturn(env: Env, u: State)
    requires WfCode(env.code) && WfState(u) && u.ip < |env.code| && env.code[u.ip] == Return
    ensures StepsTo(env, u, u.(ip := u.cp))
  {
  }

  function FramesAfter(env: Env, s: State, f: Frames, k: nat): Frames
    requires WfCode(env.code) && WfState(s) && Goes(env, s, k)
    decreases k
  {
    if k == 0 then f
    else StepWf(env, s); FramesAfter(env, Step(env, s).s, FrameStep(env.code[s.ip], s.cp, f), k - 1)
  }

  /** Every instruction met within `k` steps is disciplined. */
  predicate DisciplinedRun(env: Env, s: State, f: Frames, k: nat)
    requires WfCode(env.code) && WfState(s)
    decreases k
  {
    k > 0 && s.ip < |env.code| ==>
      && Disciplined(env.code[s.ip], s, f)
      && (Step(env, s).Next? ==>
            (StepWf(env, s); DisciplinedRun(env, Step(env, s).s, FrameStep(env.code[s.ip], s.cp, f), k - 1)))
  }

  /** In every disciplined run the flat stack stays the list of frames. */
  lemma {:induction false} RunKeepsEncoding(env: Env, s: State, f: Frames, k: nat)
    requires WfCode(env.code) && Encodes(s, f) && DisciplinedRun(env, s, f, k) && Goes(env, s, k)
    ensures Encodes(After(env, s, k), FramesAfter(env, s, f, k))
    ensures |After(env, s, k).heap| == |s.heap|
    decreases k
  {
    hide Step, Encodes, Disciplined, FrameStep;
    if k > 0 {
      EncodesWf(s, f);
      StepWf(env, s);
      StepKeepsEncoding(env, s, f);
      StepKeepsCapacity(env, s, f);
      RunKeepsEncoding(env, Step(env, s).s, FrameStep(env.code[s.ip], s.cp, f), k - 1);
    }
  }

  lemma StepKeepsCapacity(env: Env, s: State, f: Frames)
    requires WfCode(env.code) && s.ip < |env.code| && Encodes(s, f)
    requires Disciplined(env.code[s.ip], s, f) && Step(env, s).Next?
    ensures |Step(env, s).s.heap| == |s.heap|
  {
    hide StepTerm, StepMessage, FindLabel, Enc, StepArith;
    if !TouchesStack(env.code[s.ip]) {
      OtherStepsKeepStack(env, s);
    }
  }

  /** The number of frames stays at least `d`. */
  predicate StaysAbove(env: Env, s: State, f: Frames, k: nat, d: nat)
    requires WfCode(env.code) && WfState(s) && Goes(env, s, k)
    decreases k
  {
    && d <= |f.fs|
    && (k > 0 ==> (StepWf(env, s); StaysAbove(env, Step(env, s).s, FrameStep(env.code[s.ip], s.cp, f), k - 1, d)))
  }

  /** Frames below the lowest point a run reaches are not touched. */
  lemma {:induction false} OlderFramesKept(env: Env, s: State, f: Frames, k: nat, d: nat)
    requires WfCode(env.code) && WfState(s) && Goes(env, s, k) && StaysAbove(env, s, f, k, d)
    ensures d <= |FramesAfter(env, s, f, k).fs| && FramesAfter(env, s, f, k).fs[..d] == f.fs[..d]
    decreases k
  {
    hide Step, WfState;
    if k > 0 {
      StepWf(env, s);
      var f' := FrameStep(env.code[s.ip], s.cp, f);
      OlderFramesKept(env, Step(env, s).s, f', k - 1, d);
      assert f'.fs[..d] == f.fs[..d];
    }
  }

  /** A function body: ALLOCATE, `k` instructions of any nesting that stay above this frame,
      and the instruction that pops it. */
  ghost predicate Body(env: Env, s: State, f: Frames, k: nat)
    requires WfCode(env.code) && Encodes(s, f)
  {
    && s.ip < |env.code| && env.code[s.ip].Allocate? && Step(env, s).Next?
    && (StepWf(env, s);
        var s1, f1 := Step(env, s).s, FrameStep(env.code[s.ip], s.cp, f);
        && DisciplinedRun(env, s1, f1, k + 1)
        && Goes(env, s1, k)
        && StaysAbove(env, s1, f1, k, |f.fs| + 1)
        && (var t, g := After(env, s1, k), FramesAfter(env, s1, f1, k);
            && |g.fs| == |f.fs| + 1
            && t.ip < |env.code|
            && (env.code[t.ip].Deallocate? || env.code[t.ip].CallLast?)
            && Disciplined(env.code[t.ip], t, g)))
  }

  /** The state after the body's last instruction. */
  ghost function BodyEnd(env: Env, s: State, f: Frames, k: nat): State
    requires WfCode(env.code) && Encodes(s, f) && Body(env, s, f, k)
  {
    StepWf(env, s);
    Step(env, After(env, Step(env, s).s, k)).s
  }

  /** The body's last instruction and the frames after it. */
  ghost function BodyLast(env: Env, s: State, f: Frames, k: nat): Instr
    requires WfCode(env.code) && Encodes(s, f) && Body(env, s, f, k)
  {
    StepWf(env, s);
    env.code[After(env, Step(env, s).s, k).ip]
  }

  ghost function BodyFrames(env: Env, s: State, f: Frames, k: nat): Frames
    requires WfCode(env.code) && Encodes(s, f) && Body(env, s, f, k)
  {
    StepWf(env, s);
    var s1, f1 := Step(env, s).s, FrameStep(env.code[s.ip], s.cp, f);
    FrameStep(BodyLast(env, s, f, k), After(env, s1, k).cp, FramesAfter(env, s1, f1, k))
  }

  /** However deeply the body calls, popping its frame brings back `cp`, the stack top and
      every older word. */
  lemma BodyRestores(env: Env, s: State, f: Frames, k: nat)
    requires WfCode(env.code) && Encodes(s, f) && Body(env, s, f, k)
    ensures var u := BodyEnd(env, s, f, k);
            && u.cp == s.cp
            && u.stackTop == s.stackTop
            && |u.heap| == |s.heap|
            && u.heap[s.stackTop..] == s.heap[s.stackTop..]
            && (BodyLast(env, s, f, k).CallLast? ==> u.ip == BodyLast(env, s, f, k).target)
            && BodyFrames(env, s, f, k).fs == f.fs && Encodes(u, BodyFrames(env, s, f, k))
  {
    hide Encodes, WfState, Enc, StepMessage, StepTerm, StepArith, StepCatch, AllocateFrame, PopFrame, MakeClosure;
    EncodesWf(s, f);
    StepWf(env, s);
    var n := env.code[s.ip].words;
    var s1, f1 := Step(env, s).s, FrameStep(env.code[s.ip], s.cp, f);
    StepKeepsEncoding(env, s, f);
    StepKeepsCapacity(env, s, f);
    DisciplinedPrefix(env, s1, f1, k);
    RunKeepsEncoding(env, s1, f1, k);
    OlderFramesKept(env, s1, f1, k, |f.fs| + 1);
    var t, g := After(env, s1, k), FramesAfter(env, s1, f1, k);
    assert g.fs == g.fs[..|f.fs| + 1] == f1.fs == f.fs + [Frame(s.cp, n)];
    PopEnds(env, t, g);
    var f' := BodyFrames(env, s, f, k);
    assert f'.fs == f.fs;
    EncodesSameFrames(s, f, Step(env, t).s, f');
  }

  lemma {:induction false} DisciplinedPrefix(env: Env, s: State, f: Frames, k: nat)
    requires WfCode(env.code) && WfState(s) && DisciplinedRun(env, s, f, k + 1)
    ensures DisciplinedRun(env, s, f, k)
    decreases k
  {
    hide Step, Disciplined, FrameStep;
    if k > 0 && s.ip < |env.code| && Step(env, s).Next? {
      StepWf(env, s);
      DisciplinedPrefix(env, Step(env, s).s, FrameStep(env.code[s.ip], s.cp, f), k - 1);
    }
  }

  lemma PopEnds(env: Env, t: State, g: Frames)
    requires WfCode(env.code) && t.ip < |env.code| && Encodes(t, g) && Disciplined(env.code[t.ip], t, g)
    requires env.code[t.ip].Deallocate? || env.code[t.ip].CallLast?
    ensures Step(env, t).Next?
    ensures var u := Step(env, t).s;
            && Encodes(u, FrameStep(env.code[t.ip], t.cp, g))
            && u.cp == g.fs[|g.fs| - 1].cp
            && |u.heap| == |t.heap|
            && u.ip == if env.code[t.ip].CallLast? then env.code[t.ip].target else t.ip + 1
  {
    hide Enc, Encodes;
    EncodesWf(t, g);
    PopKeepsEncoding(t, g, env.code[t.ip].words);
    StepKeepsEncoding(env, t, g);
  }

  lemma EncodesSameFrames(s: State, f: Frames, u: State, f': Frames)
    requires Encodes(s, f) && Encodes(u, f') && f.fs == f'.fs && |s.heap| == |u.heap|
    ensures u.stackTop == s.stackTop && u.heap[s.stackTop..] == s.heap[s.stackTop..]
  {
    hide Enc;
  }

  /** A piece of a callee: an instruction that leaves stack and `cp` alone, or a whole body. */
  datatype Piece = Plain | Framed(k: nat)

  predicate IsPlain(i: Instr) {
    !TouchesStack(i) && !i.Call? && !i.Return?
  }

  /** `u`, with frames `g`, is where the pieces `ts` lead from `s`.  A body may end in a CALL_LAST to
      any target, where the next piece begins. */
  ghost predicate ChainsTo(env: Env, s: State, f: Frames, ts: seq<Piece>, u: State, g: Frames)
    requires WfCode(env.code) && Encodes(s, f)
    decreases |ts|
  {
    if ts == [] then u == s && g == f
    else
      match ts[0]
      case Plain =>
        && s.ip < |env.code| && IsPlain(env.code[s.ip]) && Step(env, s).Next?
        && (PlainKeeps(env, s, f); ChainsTo(env, Step(env, s).s, f, ts[1..], u, g))
      case Framed(k) =>
        && Body(env, s, f, k)
        && (BodyRestores(env, s, f, k); ChainsTo(env, BodyEnd(env, s, f, k), BodyFrames(env, s, f, k), ts[1..], u, g))
  }

  lemma PlainKeeps(env: Env, s: State, f: Frames)
    requires WfCode(env.code) && s.ip < |env.code| && Encodes(s, f) && IsPlain(env.code[s.ip]) && Step(env, s).Next?
    ensures var u := Step(env, s).s;
            Encodes(u, f) && u.cp == s.cp && u.stackTop == s.stackTop && u.heap == s.heap
  {
    hide Step, Enc;
    OtherStepsKeepStack(env, s);
    StepWf(env, s);
  }

  /** A callee in any number of pieces, tail calls to functions with frames of their own among
      them, keeps `cp`, the stack depth and every word of the stack. */
  lemma {:induction false} ChainKeepsStack(env: Env, s: State, f: Frames, ts: seq<Piece>, u: State, g: Frames)
    requires WfCode(env.code) && Encodes(s, f) && ChainsTo(env, s, f, ts, u, g)
    ensures WfState(u) && Encodes(u, g)
    ensures u.cp == s.cp && u.stackTop == s.stackTop && |u.heap| == |s.heap|
    ensures s.stackTop <= |s.heap| && u.heap[s.stackTop..] == s.heap[s.stackTop..]
    decreases |ts|
  {
    hide Encodes, Body, BodyEnd, BodyFrames, BodyLast, Enc, Step, IsPlain;
    EncodesWf(s, f);
    if ts != [] {
      match ts[0] {
        case Plain =>
          PlainKeeps(env, s, f);
          ChainKeepsStack(env, Step(env, s).s, f, ts[1..], u, g);
        case Framed(k) =>
          BodyRestores(env, s, f, k);
          ChainKeepsStack(env, BodyEnd(env, s, f, k), BodyFrames(env, s, f, k), ts[1..], u, g);
      }
    }
  }

  /** CALL comes back to the instruction after it with the caller's stack exactly as it was,
      whatever pieces lead from the callee's start to the RETURN. */
  lemma CallReturns(env: Env, s: State, f: Frames, ts: seq<Piece>, t: State, g: Frames)
    requires WfCode(env.code) && s.ip < |env.code| && env.code[s.ip].Call? && Encodes(s, f)
    requires (CallKeepsFrames(env, s, f); ChainsTo(env, Step(env, s).s, f, ts, t, g))
    requires t.ip < |env.code| && env.code[t.ip] == Return
    ensures WfState(t) && Step(env, t) == Next(t.(ip := s.ip + 1))
    ensures t.stackTop == s.stackTop && s.stackTop <= |t.heap|
    ensures |t.heap| == |s.heap| && t.heap[s.stackTop..] == s.heap[s.stackTop..]
  {
    hide Encodes, ChainsTo, Enc, StepMessage, StepTerm, StepArith, StepCatch, AllocateFrame, PopFrame, MakeClosure;
    EncodesWf(s, f);
    CallKeepsFrames(env, s, f);
    ChainKeepsStack(env, Step(env, s).s, f, ts, t, g);
  }

  /** The state a CALL leaves encodes the same frames. */
  lemma CallKeepsFrames(env: Env, s: State, f: Frames)
    requires WfCode(env.code) && s.ip < |env.code| && env.code[s.ip].Call? && Encodes(s, f)
    ensures Encodes(Step(env, s).s, f)
  {
    hide Enc, StepMessage, StepTerm, StepArith, StepCatch, AllocateFrame, PopFrame, MakeClosure;
  }

  // ---------- tail calls ----------

  /** `u` is where a loop of tail calls stands after |ks| turns: every turn is a body that ends
      in a CALL_LAST back to its own start; `ks` counts the instructions inside each frame. */
  ghost predicate LoopsTo(env: Env, s: State, f: Frames, ks: seq<nat>, u: State)
    requires WfCode(env.code) && Encodes(s, f)
    decreases |ks|
  {
    if ks == [] then u == s
    else
      && Body(env, s, f, ks[0])
      && BodyLast(env, s, f, ks[0]).CallLast? && BodyLast(env, s, f, ks[0]).target == s.ip
      && (BodyRestores(env, s, f, ks[0]);
          LoopsTo(env, BodyEnd(env, s, f, ks[0]), BodyFrames(env, s, f, ks[0]), ks[1..], u))
  }

  /** A loop of tail calls of any length begins every turn with the same `cp`, the same stack
      depth and the same stack words. */
  lemma {:induction false} TailLoopKeepsStack(env: Env, s: State, f: Frames, ks: seq<nat>, u: State)
    requires WfCode(env.code) && Encodes(s, f) && LoopsTo(env, s, f, ks, u)
    ensures u.ip == s.ip && u.cp == s.cp && u.stackTop == s.stackTop && |u.heap| == |s.heap|
    ensures s.stackTop <= |s.heap| && u.heap[s.stackTop..] == s.heap[s.stackTop..]
    decreases |ks|
  {
    hide Encodes, Body, BodyEnd, BodyFrames, BodyLast, Enc;
    EncodesWf(s, f);
    if ks != [] {
      BodyRestores(env, s, f, ks[0]);
      TailLoopKeepsStack(env, BodyEnd(env, s, f, ks[0]), BodyFrames(env, s, f, ks[0]), ks[1..], u);
    }
  }

  // ---------- slices ----------

  /** A disciplined slice that is cut short leaves a state that still encodes frames. */
  lemma {:induction false} CutEncodes(env: Env, s: State, f: Frames, r: int, m: nat) returns (g: Frames)
    requires WfCode(env.code) && Encodes(s, f) && r >= 1
    requires DisciplinedRun(env, s, f, r - 1 + m) && Run(env, s, r).kind.Preempted?
    ensures Encodes(Run(env, s, r).s, g) && DisciplinedRun(env, Run(env, s, r).s, g, m)
    decreases r
  {
    hide Step, Encodes, Disciplined, FrameStep, WfState;
    g := f;
    EncodesWf(s, f);
    if r > 1 {
      StepWf(env, s);
      StepKeepsEncoding(env, s, f);
      g := CutEncodes(env, Step(env, s).s, FrameStep(env.code[s.ip], s.cp, f), r - 1, m);
    }
  }

  lemma {:induction false} DisciplinedCuts(env: Env, s: State, f: Frames, bs: seq<int>)
    requires WfCode(env.code) && WfState(s) && bs != [] && forall k :: 0 <= k < |bs| ==> bs[k] >= 1
    requires Encodes(Enter(env, s), f) && Total(bs) >= 1 && DisciplinedRun(env, Enter(env, s), f, Total(bs) - 1)
    ensures CutsKeepFrame(env, s, bs)
    decreases |bs|
  {
    hide Run, Encodes, WfState, Disciplined;
    TotalPositive(bs[1..]);
    var e := Execute(env, s, bs[0], true);
    if e.kind.Preempted? && |bs| > 1 {
      var g := CutEncodes(env, Enter(env, s), f, bs[0], Total(bs[1..]) - 1);
      EncodesWf(e.s, g);
      DisciplinedCuts(env, e.s, g, bs[1..]);
    }
  }

  /** Frame-disciplined code: any cutting of a run gives what the uncut run gives, once the
      preempting return stores `ip`. */
  lemma DisciplinedPreemption(env: Env, s: State, f: Frames, bs: seq<int>)
    requires WfCode(env.code) && WfState(s) && bs != [] && forall k :: 0 <= k < |bs| ==> bs[k] >= 1
    requires Encodes(Enter(env, s), f) && Total(bs) >= 1 && DisciplinedRun(env, Enter(env, s), f, Total(bs) - 1)
    ensures SameEnd(Slices(env, s, bs, true), Execute(env, s, Total(bs), true))
  {
    hide Run, Encodes, Slices, Execute;
    DisciplinedCuts(env, s, f, bs);
    PreemptionTransparent(env, s, bs);
  }
}
