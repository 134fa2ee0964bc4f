/** What the interpreter makes of the records the decoder writes. */
module DecodeOpcodes {
  import opened BeamCore
  import opened BeamEmu
  import opened BeamDecode
  import opened EmuBranches

  /** The instruction a record is to the interpreter.  The decoder leaves the literal zero and the
      addressee and the jump table null. */
  function InstrOf(d: Decoded): Instr {
    match d.opcode
    case 1 => Label(d.arg1)
    case 2 => Move(d.arg2, Raw(0))
    case 3 => Add(d.arg1, d.arg2, d.arg3)
    case 4 => Sub(d.arg1, d.arg2, d.arg3)
    case 5 => Mul(d.arg1, d.arg2, d.arg3)
    case 6 => IntDiv(d.arg1, d.arg2, d.arg3)
    case 7 => Allocate(d.arg1)
    case 8 => Deallocate(d.arg1)
    case 9 => Call(d.arg1)
    case 10 => Return
    case 11 => Send(d.arg1, None)
    case 13 => MatchTuple(d.arg1, d.arg2)
    case 14 => GetTupleElement(d.arg1, d.arg2, d.arg3)
    case 15 => TestIsEqExact(d.arg1, d.arg2, d.arg3)
    case 16 => TestIsNeExact(d.arg1, d.arg2, d.arg3)
    case 17 => TestIsTuple(d.arg1, d.arg2)
    case 18 => TestIsList(d.arg1, d.arg2)
    case 19 => GetList(d.arg1, d.arg2, d.arg3)
    case 20 => SelectVal(d.arg1, d.arg2, [])
    case 21 => CallExt(d.arg1, if d.arg2 < 0x8000_0000 then d.arg2 else d.arg2 - UINT32_SPAN)
    case 22 => CallLast(d.arg1, d.arg2)
    case 23 => MakeFun2(d.arg1, d.arg2, d.arg3)
    case 24 => LoopRec(d.arg1, d.arg2)
    case 25 => LoopRecEnd(d.arg1)
    case 26 => RemoveMessage
    case 27 => Wait
    case 28 => Try(d.arg1)
    case 29 => TryCase
    case 30 => Try(d.arg1)
    case 31 => TryEnd
    case 32 => Raise(d.arg1)
    case 33 => TryCase
    case 34 => HaltOp
    case _ => Unknown
  }

  function Loaded(op: Byte, args: seq<nat>): Instr
    requires |args| == OperandCount(op)
  {
    InstrOf(Emitted(op, args))
  }

  /** The opcodes meant for an instruction of the interpreter become that instruction. */
  lemma CasesBecomeInstructions(op: Byte, args: seq<nat>)
    requires |args| == OperandCount(op)
    ensures op == 1 ==> |args| == 1 && Loaded(op, args) == Label(args[0])
    ensures op == 64 ==> |args| == 2 && Loaded(op, args) == Move(args[1], Raw(0))
    ensures op == 4 ==> |args| == 2 && Loaded(op, args) == Call(args[0])
    ensures op == 19 ==> Loaded(op, args) == Return
    ensures op == 69 ==> |args| == 3 && Loaded(op, args) == GetList(args[0], args[1], args[2])
    ensures op == 78 ==> |args| == 3 && Loaded(op, args) == SelectVal(args[0], args[1], [])
    ensures op == 62 || op == 104 ==> |args| == 2 && Loaded(op, args) == Try(args[0])
    ensures op == 63 || op == 105 ==> Loaded(op, args) == TryEnd
    ensures op == 106 || op == 107 ==> Loaded(op, args) == TryCase
    ensures op == 108 ==> |args| == 2 && Loaded(op, args) == Raise(args[0])
    ensures op == 161 ==> Loaded(op, args) == Raise(0)
  {
  }

  /** Three of the four placeholder numbers are numbers of other instructions: a function header
      becomes a MOVE, the end of the code an ADD of x0 to itself, a heap test a comparison. */
  lemma PlaceholdersCollide(op: Byte, args: seq<nat>)
    requires |args| == OperandCount(op)
    ensures op == 2 ==> |args| == 3 && Loaded(op, args) == Move(args[1], Raw(0))
    ensures op == 3 ==> Loaded(op, args) == Add(0, 0, 0)
    ensures op == 16 ==> |args| == 2 && Loaded(op, args) == TestIsNeExact(args[0], args[1], 0)
  {
  }

  lemma UnknownExactly(op: Byte, args: seq<nat>)
    requires |args| == OperandCount(op)
    ensures Loaded(op, args) == Unknown <==> Handled(op) == None || op == 153
  {
    hide Arity;
  }

  /** The instructions without a case are exactly the skipped opcodes and the line numbers; a slice
      that reaches one ends with BADARG and writes no state. */
  lemma SkippedStops(op: Byte, args: seq<nat>, env: Env, s: State)
    requires |args| == OperandCount(op)
    requires WfCode(env.code) && WfState(s) && s.ip < |env.code| && env.code[s.ip] == Loaded(op, args)
    ensures env.code[s.ip] == Unknown <==> Handled(op) == None || op == 153
    ensures Handled(op) == None || op == 153 ==> Step(env, s) == Stop(s, None, BadArg, None)
  {
    hide Loaded, Handled, OperandCount, Step;
    UnknownExactly(op, args);
    Endings(env, s);
  }

  /** A decoded register move is one exactly when the source register holds zero: the interpreter
      stores the record's literal. */
  lemma DecodedMoveExactly(env: Env, s: State, args: seq<nat>)
    requires |args| == OperandCount(64) && |args| == 2 && IsX(args[0]) && IsX(args[1])
    requires WfCode(env.code) && WfState(s) && s.ip < |env.code| && env.code[s.ip] == Loaded(64, args)
    ensures Step(env, s) == Next(s.(x := s.x[args[1] := s.x[args[0]]], ip := s.ip + 1)) <==> s.x[args[0]] == Raw(0)
  {
    CasesBecomeInstructions(64, args);
    assert Step(env, s) == Next(s.(x := s.x[args[1] := Raw(0)], ip := s.ip + 1));
    assert s.x[args[1] := s.x[args[0]]][args[1]] == s.x[args[0]] && s.x[args[1] := Raw(0)][args[1]] == Raw(0);
  }

  /** A decoded call goes to its label exactly when that label stands at the instruction whose
      number is the arity. */
  lemma DecodedCallExactly(env: Env, s: State, args: seq<nat>, k: nat)
    requires |args| == OperandCount(4) && |args| == 2
    requires WfCode(env.code) && WfState(s) && s.ip < |env.code| && env.code[s.ip] == Loaded(4, args)
    requires FindLabel(env.code, args[1], 0) == Some(k)
    ensures Step(env, s) == Next(s.(cp := s.ip + 1, ip := k)) <==> k == args[0]
  {
    CasesBecomeInstructions(4, args);
    hide FindLabel;
  }

  /** A decoded SELECT_VAL has no table, so it always goes to its fail label. */
  lemma DecodedSelectFails(env: Env, s: State, args: seq<nat>)
    requires |args| == OperandCount(78) && |args| == 3 && IsX(args[0])
    requires WfCode(env.code) && WfState(s) && s.ip < |env.code| && env.code[s.ip] == Loaded(78, args)
    ensures Step(env, s).Next? && Lands(env.code, s, Step(env, s).s, args[1])
  {
    CasesBecomeInstructions(78, args);
    SelectValJumps(env, s, args[0], args[1], []);
    hide Jump, Lands;
  }

  // ---------- a chunk as a program ----------

  function Program(ds: seq<Decoded>): (code: seq<Instr>)
    ensures |code| == |ds| && forall k :: 0 <= k < |ds| ==> code[k] == InstrOf(ds[k])
  {
    seq(|ds|, k requires 0 <= k < |ds| => InstrOf(ds[k]))
  }

  lemma {:induction false} MeaningAt(xs: seq<Source>, k: nat)
    requires WfSources(xs) && k < |xs|
    ensures |xs[k].operands| == OperandCount(xs[k].op)
    ensures InstrOf(Meanings(xs)[k]) == Loaded(xs[k].op, ArgWords(xs[k].operands))
    decreases |xs|
  {
    hide InstrOf, ArgWords, Emitted, OperandCount, Arity, WfOperands;
    assert WfSource(xs[k]);
    CasesMatchTable(xs[k].op);
    if k > 0 {
      MeaningAt(xs[1..], k - 1);
    }
  }

  /** A chunk of at most 100001 instructions, written down and decoded, is the program with the
      instruction of each in its place. */
  lemma ChunkIsProgram(fields: seq<Byte>, xs: seq<Source>)
    requires 16 <= |fields| < UINT32_SPAN - 4 && WfSources(xs) && |xs| <= 100001
    ensures DecodeChunk(EncodeChunk(fields, xs)).Some?
    ensures var code := Program(DecodeChunk(EncodeChunk(fields, xs)).value);
            && |code| == |xs|
            && forall k :: 0 <= k < |xs| ==>
                 |xs[k].operands| == OperandCount(xs[k].op) && code[k] == Loaded(xs[k].op, ArgWords(xs[k].operands))
  {
    hide DecodeChunk, EncodeChunk, InstrOf, Loaded, OperandCount, WfSources, ArgWords;
    ChunkRoundTrip(fields, xs);
    forall k | 0 <= k < |xs|
      ensures |xs[k].operands| == OperandCount(xs[k].op) && InstrOf(Meanings(xs)[k]) == Loaded(xs[k].op, ArgWords(xs[k].operands))
    {
      MeaningAt(xs, k);
    }
  }
}
