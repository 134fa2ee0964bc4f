/** Exception handlers: what RAISE brings back, and when heap and stack stay apart. */
module EmuUnwind {
  import opened BeamCore
  import opened ErlProcess
  import opened BeamEmu
  import opened EmuFrames
  import opened EmuCalls

  predicate Apart(s: State) {
    s.heapTop <= s.stackTop
  }

  /** The closure of this instruction, if any, fits below the stack. */
  predicate ClosureFits(i: Instr, s: State) {
    i.MakeFun2? ==> s.heapTop + i.free + 2 <= s.stackTop
  }

  lemma StackStaysApart(i: Instr, s: State)
    requires WfState(s) && Apart(s) && (i.Allocate? || i.Deallocate? || i.CallLast?)
    ensures Apart(StepStack(i, s).s)
  {
    hide FrameWords;
  }

  lemma ClosureApart(env: Env, s: State, entry: nat, free: nat, dst: nat)
    requires WfState(s)
    ensures Apart(MakeClosure(env, s, entry, free, dst)) <==> s.heapTop + free + 2 <= s.stackTop
  {
    hide Closure;
  }

  lemma CatchApart(env: Env, i: Instr, s: State)
    requires WfState(s) && Apart(s) && (i.Try? || i.TryEnd? || i.Raise?) && StepCatch(env, i, s).Next?
    ensures Apart(StepCatch(env, i, s).s) <==>
              (i.Raise? ==> s.catches != [] && s.heapTop <= s.catches[|s.catches| - 1].stackTop)
  {
    hide FindLabel;
  }

  /** One instruction keeps heap and stack apart exactly when its closure fits and the stack
      top a RAISE goes back to has not been overtaken by the heap. */
  lemma ApartExactly(env: Env, s: State)
    requires WfCode(env.code) && s.ip < |env.code| && WfState(s) && Apart(s) && Step(env, s).Next?
    ensures Apart(Step(env, s).s) <==>
              && ClosureFits(env.code[s.ip], s)
              && (env.code[s.ip].Raise? ==> s.heapTop <= s.catches[|s.catches| - 1].stackTop)
  {
    var i := env.code[s.ip];
    if !TouchesStack(i) {
      OtherStepsKeepStack(env, s);
    } else {
      hide StepTerm, StepMessage, StepArith, StepStack, StepCatch, MakeClosure;
      if i.Raise? {
        RaiseNeedsHandler(env, s, i.reg);
      }
      if i.MakeFun2? {
        ClosureApart(env, s, i.entry, i.free, i.dst);
      } else if i.Try? || i.TryEnd? || i.Raise? {
        CatchApart(env, i, s);
      } else {
        StackStaysApart(i, s);
      }
    }
  }

  /** Closures that fit are not enough.  A new process with four words of memory pushes a frame,
      sets up a handler, pops the frame past it and allocates; RAISE then puts the stack top
      below the heap top. */
  lemma RaiseCanCollide(env: Env, s: State)
    requires env.code == [Allocate(2), Try(9), Deallocate(2), MakeFun2(5, 0, 1), Raise(0)]
    requires WfState(s) && s.ip == 0 && s.catches == []
    requires |s.heap| == 4 && s.heapTop == 0 && s.stackTop == 4
    ensures Goes(env, s, 5)
    ensures var t := After(env, s, 4);
            Apart(s) && Apart(t) && t.heapTop == 2 && t.stackTop == 4 && !Apart(After(env, s, 5))
    ensures ClosureFits(env.code[3], After(env, s, 3))
  {
    PushesFrame(env, s);
    var s1 := Step(env, s).s;
    SetsUpTry(env, s1);
    var s2 := Step(env, s1).s;
    PopsPastTry(env, s2);
    var s3 := Step(env, s2).s;
    GrowsPastTry(env, s3);
    var s4 := Step(env, s3).s;
    var s5 := Step(env, s4).s;
    hide Step, WfState, Goes, After;
    NoneLeft(env, s5);
    NoneLeft(env, s4);
    NoneLeft(env, s3);
    FourSteps(env, s1, s2, s3, s4, s5, 0);
    GoesOn(env, s, s1, 4);
    FourSteps(env, s, s1, s2, s3, s4, 0);
    GoesOn(env, s2, s3, 0);
    GoesOn(env, s1, s2, 1);
    GoesOn(env, s, s1, 2);
  }

  lemma PushesFrame(env: Env, s: State)
    requires WfCode(env.code) && WfState(s) && s.ip == 0 && |env.code| == 5 && env.code[0] == Allocate(2)
    requires |s.heap| == 4 && s.heapTop == 0 && s.stackTop == 4
    ensures StepsTo(env, s, Step(env, s).s)
    ensures var t := Step(env, s).s;
            t.ip == 1 && t.stackTop == 1 && t.heapTop == 0 && t.catches == s.catches && |t.heap| == 4
  {
    StepWf(env, s);
    hide Pack, FindLabel, StepTerm, StepMessage, StepCatch, StepArith, MakeClosure;
  }

  lemma SetsUpTry(env: Env, s: State)
    requires WfCode(env.code) && WfState(s) && s.ip < |env.code| && env.code[s.ip] == Try(9) && s.catches == []
    ensures StepsTo(env, s, Step(env, s).s)
    ensures Step(env, s).s == s.(ip := s.ip + 1, catches := [CatchFrame(9, s.stackTop, s.cp)])
  {
    StepWf(env, s);
    hide StepTerm, StepMessage, StepStack, StepArith, MakeClosure;
  }

  lemma PopsPastTry(env: Env, s: State)
    requires WfCode(env.code) && WfState(s) && s.ip == 2 && |env.code| == 5 && env.code[2] == Deallocate(2)
    requires |s.heap| == 4 && s.heapTop == 0 && s.stackTop == 1
    ensures StepsTo(env, s, Step(env, s).s)
    ensures var t := Step(env, s).s;
            t.ip == 3 && t.stackTop == 4 && t.heapTop == 0 && t.catches == s.catches && |t.heap| == 4
  {
    StepWf(env, s);
    hide Pack, FindLabel, StepTerm, StepMessage, StepCatch, StepArith, MakeClosure;
  }

  lemma GrowsPastTry(env: Env, s: State)
    requires env.code == [Allocate(2), Try(9), Deallocate(2), MakeFun2(5, 0, 1), Raise(0)]
    requires WfState(s) && s.ip == 3 && |s.catches| == 1 && s.catches[0].stackTop == 1
    requires |s.heap| == 4 && s.heapTop == 0 && s.stackTop == 4
    ensures StepsTo(env, s, Step(env, s).s)
    ensures var t := Step(env, s).s;
            && t.ip == 4 && t.stackTop == 4 && t.heapTop == 2
            && StepsTo(env, t, Step(env, t).s)
            && Step(env, t).s.stackTop == 1 && Step(env, t).s.heapTop == 2
  {
    StepWf(env, s);
    StepWf(env, Step(env, s).s);
    hide Closure, FindLabel, StepTerm, StepMessage, StepStack, StepArith;
  }

  // ---------- exact unwinding ----------

  /** Older handlers saved higher stack tops, and the stack top is not above the innermost. */
  predicate Nested(s: State) {
    && (forall j, k :: 0 <= j < k < |s.catches| ==> s.catches[k].stackTop <= s.catches[j].stackTop)
    && (s.catches != [] ==> s.stackTop <= s.catches[|s.catches| - 1].stackTop)
  }

  /** The stack top does not rise above the innermost saved one. */
  predicate PopsInside(i: Instr, s: State) {
    (i.Deallocate? || i.CallLast?) && s.catches != [] ==>
      s.stackTop + i.words + 1 <= s.catches[|s.catches| - 1].stackTop
  }

  /** What one instruction keeps: heap and stack apart, saved tops ordered, and every word at
      or above the stack top; it adds or removes at most the innermost handler. */
  predicate KeepsNesting(s: State, s': State) {
    && Apart(s') && Nested(s') && |s'.heap| == |s.heap|
    && (|s'.catches| >= |s.catches| ==> s.catches <= s'.catches)
    && (|s'.catches| < |s.catches| ==> s'.catches == s.catches[..|s.catches| - 1])
    && (forall j :: s.stackTop <= j < |s.heap| ==> s'.heap[j] == s.heap[j])
  }

  lemma CatchKeepsNesting(env: Env, s: State, i: Instr)
    requires WfState(s) && Apart(s) && Nested(s) && (i.Try? || i.TryEnd? || i.Raise?)
    requires StepCatch(env, i, s).Next?
    ensures KeepsNesting(s, StepCatch(env, i, s).s)
  {
    hide FindLabel;
  }

  lemma StackKeepsNesting(s: State, i: Instr)
    requires WfState(s) && Apart(s) && Nested(s) && (i.Allocate? || i.Deallocate? || i.CallLast?)
    requires PopsInside(i, s) && StepStack(i, s).Next?
    ensures KeepsNesting(s, StepStack(i, s).s)
  {
    hide FrameWords;
  }

  lemma ClosureKeepsNesting(env: Env, s: State, entry: nat, free: nat, dst: nat)
    requires WfState(s) && Apart(s) && Nested(s) && s.heapTop + free + 2 <= s.stackTop
    ensures KeepsNesting(s, MakeClosure(env, s, entry, free, dst))
  {
    hide Closure;
  }

  /** While frames are popped inside their handlers, saved tops stay ordered, heap and stack
      stay apart, and no word above a saved top is written. */
  lemma StepKeepsNesting(env: Env, s: State)
    requires WfCode(env.code) && s.ip < |env.code| && WfState(s) && Apart(s) && Nested(s) && Step(env, s).Next?
    requires ClosureFits(env.code[s.ip], s) && PopsInside(env.code[s.ip], s)
    ensures KeepsNesting(s, Step(env, s).s)
  {
    hide StepTerm, StepMessage, StepArith, StepCatch, StepStack, MakeClosure;
    match env.code[s.ip] {
      case Allocate(_) => StackKeepsNesting(s, env.code[s.ip]);
      case Deallocate(_) => StackKeepsNesting(s, env.code[s.ip]);
      case CallLast(_, _) => StackKeepsNesting(s, env.code[s.ip]);
      case MakeFun2(entry, free, dst) => ClosureKeepsNesting(env, s, entry, free, dst);
      case Try(_) => CatchKeepsNesting(env, s, env.code[s.ip]);
      case TryEnd => CatchKeepsNesting(env, s, env.code[s.ip]);
      case Raise(_) => CatchKeepsNesting(env, s, env.code[s.ip]);
      case _ => OtherStepsKeepStack(env, s);
    }
  }

  /** `k` instructions under the discipline, during which handler `d` stays active. */
  predicate Guarded(env: Env, s: State, k: nat, d: nat)
    requires WfCode(env.code) && WfState(s)
    decreases k
  {
    && d < |s.catches|
    && (k > 0 ==>
          && s.ip < |env.code|
          && Step(env, s).Next?
          && ClosureFits(env.code[s.ip], s) && PopsInside(env.code[s.ip], s)
          && (StepWf(env, s); Guarded(env, Step(env, s).s, k - 1, d)))
  }

  /** While handler `d` is active, it and the words above its saved top do not change. */
  lemma {:induction false} HandlerKept(env: Env, s: State, k: nat, d: nat)
    requires WfCode(env.code) && WfState(s) && Apart(s) && Nested(s) && Guarded(env, s, k, d)
    ensures Goes(env, s, k)
    ensures var t := After(env, s, k);
            && Apart(t) && Nested(t) && |t.heap| == |s.heap| && d < |t.catches|
            && t.catches[..d + 1] == s.catches[..d + 1]
            && t.heap[s.catches[d].stackTop..] == s.heap[s.catches[d].stackTop..]
    decreases k
  {
    hide Step;
    if k > 0 {
      StepWf(env, s);
      StepKeepsNesting(env, s);
      var s' := Step(env, s).s;
      HandlerKept(env, s', k - 1, d);
      assert s'.catches[..d + 1] == s.catches[..d + 1];
      assert s'.catches[d] == s'.catches[..d + 1][d] == s.catches[d];
      assert s'.heap[s.catches[d].stackTop..] == s.heap[s.catches[d].stackTop..];
    }
  }

  /** RAISE caught by the handler a TRY at `s` set up: whatever ran in between, the stack and
      every word on it, and the outer handlers, are those of the TRY; the frame is used once;
      the term is in x0; execution goes on at the first label with the handler's number.
      `cp` is not restored. */
  lemma ExactUnwinding(env: Env, s: State, k: nat)
    requires WfCode(env.code) && s.ip < |env.code| && WfState(s) && Apart(s) && Nested(s)
    requires env.code[s.ip].Try? && Step(env, s).Next?
    requires WfState(Step(env, s).s) && Guarded(env, Step(env, s).s, k, |s.catches|)
    requires Goes(env, Step(env, s).s, k)
    requires var t := After(env, Step(env, s).s, k);
             t.ip < |env.code| && env.code[t.ip].Raise? && |t.catches| == |s.catches| + 1
    ensures var t := After(env, Step(env, s).s, k);
            var i := env.code[t.ip];
            && Step(env, t).Next?
            && var u := Step(env, t).s;
               && u.stackTop == s.stackTop && |u.heap| == |s.heap|
               && u.heap[s.stackTop..] == s.heap[s.stackTop..]
               && u.catches == s.catches
               && u.x == t.x[0 := if IsX(i.reg) then t.x[i.reg] else Raw(0)]
               && u.cp == t.cp && (u.cp == s.cp <==> t.cp == s.cp)
               && u.ip == (match FindLabel(env.code, env.code[s.ip].handler, 0) case Some(l) => l case None => t.ip)
  {
    var s1 := Step(env, s).s;
    var d := |s.catches|;
    assert s1.catches == s.catches + [CatchFrame(env.code[s.ip].handler, s.stackTop, s.cp)]
           && s1.heap == s.heap && s1.stackTop == s.stackTop && s1.heapTop == s.heapTop by {
      hide FindLabel, StepTerm;
    }
    HandlerKept(env, s1, k, d);
    var t := After(env, s1, k);
    assert t.catches == t.catches[..d + 1] == s1.catches;
    hide After, Goes, Guarded, StepTerm, StepStack, StepMessage, StepArith;
  }

  /** A function that sets up a handler and calls one that raises.  The handler's RETURN should
      go to the function's caller, at the `cp` the TRY saved; it goes behind the CALL instead. */
  lemma HandlerReturnsBehindCall(env: Env, s: State)
    requires env.code == [Try(9), Call(3), HaltOp, Raise(0), Label(9), Return]
    requires WfState(s) && s.ip == 0 && s.catches == []
    ensures Goes(env, s, 5) && After(env, s, 5).ip == 2
    ensures After(env, s, 5).ip == s.cp <==> s.cp == 2
    ensures Step(env, s).s.catches == [CatchFrame(9, s.stackTop, s.cp)]
  {
    SetsUpTry(env, s);
    hide Step, WfState, Goes, After, StepsTo;
    var s1 := Step(env, s).s;
    StepsToWf(env, s, s1);
    StepCall(env, s1, 3);
    var s2 := s1.(cp := 2, ip := 3);
    StepsToWf(env, s1, s2);
    RaisesToLabel(env, s2);
    var s3 := SetX(s2, 0, s2.x[0]).(ip := 4, catches := []);
    StepsToWf(env, s2, s3);
    StepLabel(env, s3, 9);
    var s4 := s3.(ip := 5);
    StepsToWf(env, s3, s4);
    StepReturn(env, s4);
    var s5 := s4.(ip := 2);
    StepsToWf(env, s4, s5);
    NoneLeft(env, s5);
    FourSteps(env, s1, s2, s3, s4, s5, 0);
    GoesOn(env, s, s1, 4);
  }

  lemma RaisesToLabel(env: Env, s: State)
    requires env.code == [Try(9), Call(3), HaltOp, Raise(0), Label(9), Return]
    requires WfState(s) && s.ip == 3 && |s.catches| == 1 && s.catches[0].target == 9 && s.catches[0].stackTop == s.stackTop
    ensures |s.x| > 0 && StepsTo(env, s, SetX(s, 0, s.x[0]).(ip := 4, catches := []))
  {
    StepWf(env, s);
    assert env.code[4] == Label(9) && forall k :: 0 <= k < 6 && k != 4 ==> env.code[k] != Label(9);
    hide FindLabel, StepTerm, StepMessage, StepStack, StepArith, MakeClosure;
  }

  /** With no handler the process exits and nothing else changes. */
  lemma UncaughtExits(env: Env, s: State)
    requires WfCode(env.code) && s.ip < |env.code| && WfState(s) && env.code[s.ip].Raise? && s.catches == []
    ensures Step(env, s) == Stop(s, Some(Exited), Exception, None)
  {
  }
}
