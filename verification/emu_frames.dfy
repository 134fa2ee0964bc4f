/** The stack words as a list of call frames, over whole runs. */
module EmuFrames {
  import opened BeamCore
  import opened BeamEmu

  /** A frame: the return address it saves and the number of words above it. */
  datatype Frame = Frame(cp: nat, n: nat)

  /** The abstract stack: frames, innermost last, and for every active handler the number of
      frames there were when it was set up. */
  datatype Frames = Frames(fs: seq<Frame>, marks: seq<nat>)

  /** The stack words of a list of frames, from the stack top to the end of the memory. */
  function Enc(fs: seq<Frame>): seq<Term> {
    if fs == [] then []
    else FrameWords(fs[|fs| - 1].cp, fs[|fs| - 1].n) + Enc(fs[..|fs| - 1])
  }

  predicate IsCp(cp: nat) {
    0 < cp < UINT32_SPAN
  }

  /** Handlers are ordered and lie at frame boundaries. */
  ghost predicate MarksFit(s: State, f: Frames) {
    && |f.marks| == |s.catches|
    && (forall k :: 0 <= k < |f.marks| ==>
          f.marks[k] <= |f.fs| && s.catches[k].stackTop + |Enc(f.fs[..f.marks[k]])| == |s.heap|)
    && (forall j, k :: 0 <= j < k < |f.marks| ==> f.marks[j] <= f.marks[k])
  }

  /** The flat stack of `s` is the list of frames `f`, apart from the heap. */
  ghost predicate Encodes(s: State, f: Frames) {
    && WfState(s)
    && s.heapTop <= s.stackTop
    && s.heap[s.stackTop..] == Enc(f.fs)
    && IsCp(s.cp) && (forall k :: 0 <= k < |f.fs| ==> IsCp(f.fs[k].cp))
    && MarksFit(s, f)
  }

  /** Frames are popped with the size they were pushed with and not from under a handler;
      closures fit below the stack. */
  predicate Disciplined(i: Instr, s: State, f: Frames) {
    match i
    case Deallocate(n) => Pops(n, f)
    case CallLast(_, n) => Pops(n, f)
    case MakeFun2(_, free, _) => s.heapTop + free + 2 <= s.stackTop
    case _ => true
  }

  predicate Pops(n: nat, f: Frames) {
    f.fs != [] && f.fs[|f.fs| - 1].n == n && (f.marks != [] ==> f.marks[|f.marks| - 1] < |f.fs|)
  }

  /** What the instruction does to the frames. */
  function FrameStep(i: Instr, cp: nat, f: Frames): Frames {
    match i
    case Allocate(n) => f.(fs := f.fs + [Frame(cp, n)])
    case Deallocate(_) => if f.fs == [] then f else f.(fs := f.fs[..|f.fs| - 1])
    case CallLast(_, _) => if f.fs == [] then f else f.(fs := f.fs[..|f.fs| - 1])
    case Try(_) => f.(marks := f.marks + [|f.fs|])
    case TryEnd => if f.marks == [] then f else f.(marks := f.marks[..|f.marks| - 1])
    case Raise(_) =>
      if f.marks == [] || f.marks[|f.marks| - 1] > |f.fs| then f
      else Frames(f.fs[..f.marks[|f.marks| - 1]], f.marks[..|f.marks| - 1])
    case _ => f
  }

  /** The older frames are the tail of the words; `top` are the words of the newer ones. */
  lemma {:induction false} EncPrefix(fs: seq<Frame>, d: nat) returns (top: seq<Term>)
    requires d <= |fs|
    ensures Enc(fs) == top + Enc(fs[..d])
    decreases |fs|
  {
    hide FrameWords;
    if d == |fs| {
      assert fs[..d] == fs;
      top := [];
    } else {
      var n := |fs| - 1;
      top := EncPrefix(fs[..n], d);
      assert fs[..n][..d] == fs[..d];
      top := FrameWords(fs[n].cp, fs[n].n) + top;
    }
  }

  lemma EncSnoc(fs: seq<Frame>, f: Frame)
    ensures Enc(fs + [f]) == FrameWords(f.cp, f.n) + Enc(fs)
  {
    assert (fs + [f])[..|fs|] == fs;
  }

  // ---------- one step ----------

  lemma PushKeepsEncoding(s: State, f: Frames, words: nat)
    requires Encodes(s, f) && AllocateFrame(s, words).1.Ok?
    ensures var s' := AllocateFrame(s, words).0;
            Encodes(s', FrameStep(Allocate(words), s.cp, f))
  {
    hide FrameWords;
    var s' := AllocateFrame(s, words).0;
    var f' := f.(fs := f.fs + [Frame(s.cp, words)]);
    EncSnoc(f.fs, Frame(s.cp, words));
    assert s'.heap[s'.stackTop..] == FrameWords(s.cp, words) + s.heap[s.stackTop..];
    forall k | 0 <= k < |f.marks| ensures f'.fs[..f.marks[k]] == f.fs[..f.marks[k]] {
    }
  }

  lemma PopKeepsEncoding(s: State, f: Frames, words: nat)
    requires Encodes(s, f) && Pops(words, f)
    ensures var (s', status) := PopFrame(s, words);
            && status.Ok?
            && s'.cp == f.fs[|f.fs| - 1].cp
            && Encodes(s', f.(fs := f.fs[..|f.fs| - 1]))
  {
    var n := |f.fs| - 1;
    var words' := FrameWords(f.fs[n].cp, words);
    assert Enc(f.fs) == words' + Enc(f.fs[..n]);
    assert s.heap[s.stackTop + words] == s.heap[s.stackTop..][words] == words'[words];
    assert s.heap[s.stackTop + words + 1..] == s.heap[s.stackTop..][words + 1..] == Enc(f.fs[..n]);
    forall k | 0 <= k < |f.marks| ensures f.marks[k] <= n && f.fs[..n][..f.marks[k]] == f.fs[..f.marks[k]] {
    }
  }

  lemma ClosureKeepsEncoding(env: Env, s: State, f: Frames, entry: nat, free: nat, dst: nat)
    requires Encodes(s, f) && s.heapTop + free + 2 <= s.stackTop
    ensures Encodes(MakeClosure(env, s, entry, free, dst), f)
  {
    hide Enc, Closure;
    var s' := MakeClosure(env, s, entry, free, dst);
    assert s'.heap[s'.stackTop..] == s.heap[s.stackTop..];
  }

  /** The words from the saved top of handler `k` up are the frames there were at its TRY. */
  lemma HandlerWords(s: State, f: Frames, k: nat)
    requires Encodes(s, f) && k < |s.catches|
    ensures s.stackTop <= s.catches[k].stackTop
    ensures s.heap[s.catches[k].stackTop..] == Enc(f.fs[..f.marks[k]])
  {
    hide Enc;
    var top := EncPrefix(f.fs, f.marks[k]);
    assert s.heap[s.catches[k].stackTop..] == s.heap[s.stackTop..][|top|..];
  }

  /** RAISE puts back the frames of the matching TRY, words and all. */
  lemma RaiseRestoresFrames(env: Env, s: State, f: Frames, reg: nat)
    requires Encodes(s, f) && s.catches != []
    ensures var s' := StepCatch(env, Raise(reg), s).s;
            Encodes(s', FrameStep(Raise(reg), s.cp, f))
  {
    hide FindLabel, Enc;
    var m := f.marks[|f.marks| - 1];
    HandlerWords(s, f, |f.marks| - 1);
    forall k | 0 <= k < |f.marks| - 1 ensures f.fs[..m][..f.marks[k]] == f.fs[..f.marks[k]] {
    }
  }

  lemma TryKeepsEncoding(env: Env, s: State, f: Frames, i: Instr)
    requires Encodes(s, f) && (i.Try? || i.TryEnd?) && StepCatch(env, i, s).Next?
    ensures Encodes(StepCatch(env, i, s).s, FrameStep(i, s.cp, f))
  {
    hide Enc;
    assert f.fs[..|f.fs|] == f.fs;
  }

  lemma OthersKeepEncoding(env: Env, s: State, f: Frames)
    requires WfCode(env.code) && s.ip < |env.code| && Encodes(s, f) && Step(env, s).Next?
    requires !TouchesStack(env.code[s.ip])
    ensures Encodes(Step(env, s).s, f)
  {
    hide Step, Enc;
    StepWf(env, s);
    OtherStepsKeepStack(env, s);
  }

  lemma EncodesWf(s: State, f: Frames)
    requires Encodes(s, f)
    ensures WfState(s) && s.cp != 0 && s.stackTop + |Enc(f.fs)| == |s.heap|
  {
  }

  lemma IpIsNoPart(s: State, f: Frames, k: nat)
    requires Encodes(s, f)
    ensures Encodes(s.(ip := k), f)
  {
    hide Enc;
  }

  lemma StackKeepsEncoding(s: State, f: Frames, i: Instr)
    requires Encodes(s, f) && Disciplined(i, s, f) && (i.Allocate? || i.Deallocate? || i.CallLast?)
    requires StepStack(i, s).Next?
    ensures Encodes(StepStack(i, s).s, FrameStep(i, s.cp, f))
  {
    hide Enc, AllocateFrame, PopFrame, Encodes;
    EncodesWf(s, f);
    var r := if i.Allocate? then AllocateFrame(s, i.words) else PopFrame(s, i.words);
    if i.Allocate? {
      PushKeepsEncoding(s, f, i.words);
    } else {
      PopKeepsEncoding(s, f, i.words);
    }
    IpIsNoPart(r.0, FrameStep(i, s.cp, f), StepStack(i, s).s.ip);
  }

  /** Every disciplined instruction does to the flat stack what it does to the frames. */
  lemma StepKeepsEncoding(env: Env, s: State, f: Frames)
    requires WfCode(env.code) && s.ip < |env.code| && Encodes(s, f)
    requires Disciplined(env.code[s.ip], s, f) && Step(env, s).Next?
    ensures Encodes(Step(env, s).s, FrameStep(env.code[s.ip], s.cp, f))
  {
    hide Enc, MakeClosure, StepStack, StepTerm, StepMessage, StepCatch, StepArith, Encodes, FrameStep;
    EncodesWf(s, f);
    var i := env.code[s.ip];
    match i {
      case Allocate(_) => StackKeepsEncoding(s, f, i);
      case Deallocate(_) => StackKeepsEncoding(s, f, i);
      case CallLast(_, _) => StackKeepsEncoding(s, f, i);
      case MakeFun2(entry, free, dst) =>
        ClosureKeepsEncoding(env, s, f, entry, free, dst);
        IpIsNoPart(MakeClosure(env, s, entry, free, dst), f, Step(env, s).s.ip);
        assert FrameStep(i, s.cp, f) == f by { SameFrames(i, s.cp, f); }
      case Raise(reg) =>
        assert s.catches != [] by { RaiseNeedsHandler(env, s, reg); }
        RaiseRestoresFrames(env, s, f, reg);
      case Try(_) => TryKeepsEncoding(env, s, f, i);
      case TryEnd => TryKeepsEncoding(env, s, f, i);
      case _ =>
        OthersKeepEncoding(env, s, f);
        SameFrames(i, s.cp, f);
    }
  }

  lemma SameFrames(i: Instr, cp: nat, f: Frames)
    requires i.MakeFun2? || !TouchesStack(i)
    ensures FrameStep(i, cp, f) == f
  {
  }

  lemma RaiseNeedsHandler(env: Env, s: State, reg: nat)
    requires WfState(s)
    ensures StepCatch(env, Raise(reg), s).Next? <==> s.catches != []
  {
  }

  /** The instructions that change heap, stack or handlers. */
  predicate TouchesStack(i: Instr) {
    i.Allocate? || i.Deallocate? || i.CallLast? || i.MakeFun2? || i.Raise? || i.Try? || i.TryEnd?
  }

  /** Every other instruction leaves memory, stack and handlers alone. */
  lemma OtherStepsKeepStack(env: Env, s: State)
    requires WfCode(env.code) && s.ip < |env.code| && WfState(s) && Step(env, s).Next?
    requires !TouchesStack(env.code[s.ip])
    ensures var s' := Step(env, s).s;
            && s'.heap == s.heap && s'.heapTop == s.heapTop && s'.stackTop == s.stackTop && s'.catches == s.catches
            && s'.cp == if env.code[s.ip].Call? then s.ip + 1 else s.cp
  {
    hide FindLabel, Deref, TupleAt, TupleArity, TableTarget, Arith, AllocateFrame, PopFrame, MakeClosure;
  }
}
