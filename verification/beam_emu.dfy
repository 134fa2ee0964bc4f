/** The interpreter's instructions and what one of them does to a process. */
module BeamEmu {
  import opened BeamCore
  import opened MailboxModel
  import opened ErlProcess

  datatype Instr =
    | Label(id: nat)
    | Move(dst: nat, literal: Term)
    | Add(r1: nat, r2: nat, dst: nat)
    | Sub(r1: nat, r2: nat, dst: nat)
    | Mul(r1: nat, r2: nat, dst: nat)
    | IntDiv(r1: nat, r2: nat, dst: nat)
    | Allocate(words: nat)
    | Deallocate(words: nat)
    | Call(target: nat)
    | CallLast(target: nat, words: nat)
    | Return
    | Send(reg: nat, to: Option<nat>)
    | LoopRec(fail: nat, dst: nat)
    | LoopRecEnd(loop: nat)
    | RemoveMessage
    | Wait
    | Try(handler: nat)   // TRY and CATCH
    | TryCase             // TRY_CASE and TRY_CASE_END
    | TryEnd
    | Raise(reg: nat)
    | MatchTuple(src: nat, arity: nat)
    | GetTupleElement(src: nat, index: nat, dst: nat)
    | TestIsEqExact(fail: nat, r1: nat, r2: nat)
    | TestIsNeExact(fail: nat, r1: nat, r2: nat)
    | TestIsTuple(fail: nat, r1: nat)
    | TestIsList(fail: nat, r1: nat)
    | GetList(src: nat, head: nat, tail: nat)
    | SelectVal(src: nat, fail: nat, table: seq<(Term, nat)>)
    | CallExt(bif: nat, argc: int)
    | MakeFun2(entry: nat, free: nat, dst: nat)
    | HaltOp
    | Unknown

  /** Everything of the process an instruction can see or change. */
  datatype State = State(
    pid: nat,
    x: seq<Term>,
    heap: seq<Term>,
    base: Address,
    heapTop: nat,
    stackTop: nat,
    cp: nat,
    ip: nat,
    catches: seq<CatchFrame>,
    mbox: Mbox,
    outbox: seq<(nat, Term)>)

  /** The code, the memory outside the process heap, the table of built-in functions and
      where the allocator moves a heap that grows. */
  datatype Env = Env(
    code: seq<Instr>,
    foreign: nat -> Term,
    bif: (nat, int, State) -> (Status, Term),
    regrow: Address -> Address)

  datatype Outcome =
    | Next(s: State)
    | Stop(s: State, state: Option<ProcState>, res: Status, out: Option<Term>)

  predicate IsX(r: nat) {
    r < NUM_X_REGISTERS
  }

  /** Operands the interpreter uses without a range check lie in range. */
  predicate WfInstr(i: Instr) {
    match i
    case TestIsEqExact(_, r1, r2) => IsX(r1) && IsX(r2)
    case TestIsNeExact(_, r1, r2) => IsX(r1) && IsX(r2)
    case TestIsTuple(_, r1) => IsX(r1)
    case TestIsList(_, r1) => IsX(r1)
    case GetList(src, head, tail) => IsX(src) && IsX(head) && IsX(tail)
    case SelectVal(src, _, _) => IsX(src)
    case MakeFun2(_, free, _) => free < 0x3FF_FFFF
    case _ => true
  }

  predicate WfCode(code: seq<Instr>) {
    0 < |code| < UINT32_SPAN && forall k :: 0 <= k < |code| ==> WfInstr(code[k])
  }

  predicate WfState(s: State) {
    && |s.x| == NUM_X_REGISTERS
    && s.heapTop <= |s.heap|
    && s.stackTop <= |s.heap|
    && (forall k :: 0 <= k < |s.catches| ==> s.catches[k].stackTop <= |s.heap|)
    && |s.catches| <= MAX_CATCH_DEPTH
    && InQueue(s.mbox)
  }

  // ---------- pieces of instructions ----------

  /** The first instruction that is this label, if any. */
  function FindLabel(code: seq<Instr>, id: nat, from: nat): (r: Option<nat>)
    requires from <= |code|
    ensures r.Some? ==> from <= r.value < |code| && code[r.value] == Label(id)
    ensures r.Some? ==> forall k :: from <= k < r.value ==> code[k] != Label(id)
    ensures r.None? ==> forall k :: from <= k < |code| ==> code[k] != Label(id)
    decreases |code| - from
  {
    if from == |code| then None
    else if code[from] == Label(id) then Some(from)
    else FindLabel(code, id, from + 1)
  }

  /** JUMP_TO_LABEL: a label nobody declares leaves the instruction pointer alone. */
  function Jump(env: Env, s: State, id: nat): State {
    match FindLabel(env.code, id, 0)
    case None => s
    case Some(k) => s.(ip := k)
  }

  function SetX(s: State, dst: nat, t: Term): State
    requires dst < |s.x|
  {
    s.(x := s.x[dst := t])
  }

  function Deref(env: Env, s: State, addr: nat): Term {
    if s.base <= addr < s.base + |s.heap| then s.heap[addr - s.base] else env.foreign(addr)
  }

  predicate TupleAt(env: Env, s: State, t: Term) {
    t.Boxed? && t.addr != 0 && IsHeader(Deref(env, s, t.addr))
  }

  function TupleArity(env: Env, s: State, t: Term): nat
    requires TupleAt(env, s, t)
  {
    Deref(env, s, t.addr).n / 64
  }

  function Zeros(n: nat): (zs: seq<Term>)
    ensures |zs| == n && forall k :: 0 <= k < n ==> zs[k] == Raw(0)
  {
    seq(n, _ => Raw(0))
  }

  /** A frame as it lies on the stack: `n` zero words below the saved `cp`. */
  function FrameWords(cp: nat, n: nat): (ws: seq<Term>)
    ensures |ws| == n + 1
  {
    Zeros(n) + [Raw(cp)]
  }

  /** ALLOCATE: pushes `cp` and then `words` zeros, as far as the heap leaves room. */
  function AllocateFrame(s: State, words: nat): (r: (State, Status))
    requires WfState(s)
    ensures WfState(r.0)
  {
    var room := if s.stackTop > s.heapTop then s.stackTop - s.heapTop else 0;
    var n := if words + 1 <= room then words + 1 else room;
    var frame := if n == 0 then [] else FrameWords(s.cp, n - 1);
    var s' := s.(heap := s.heap[..s.stackTop - n] + frame + s.heap[s.stackTop..], stackTop := s.stackTop - n);
    (s', if n == words + 1 then Ok else NoMemory)
  }

  /** DEALLOCATE and CALL_LAST: pops `words` words and then the saved `cp`. */
  function PopFrame(s: State, words: nat): (r: (State, Status))
    requires WfState(s)
    ensures WfState(r.0)
  {
    if s.stackTop + words + 1 <= |s.heap| then
      var saved := s.heap[s.stackTop + words];
      (s.(stackTop := s.stackTop + words + 1, cp := Pack(saved) % UINT32_SPAN), Ok)
    else
      (s.(stackTop := |s.heap|), BadArg)
  }

  /** The block MAKE_FUN2 writes: a tuple of the entry label and the first registers. */
  function Closure(s: State, entry: nat, free: nat): (ws: seq<Term>)
    requires WfState(s)
    ensures |ws| == free + 2
  {
    [Header(free + 1), MakeSmall(entry)]
    + (if free <= NUM_X_REGISTERS then s.x[..free] else s.x + Zeros(free - NUM_X_REGISTERS))
  }

  /** Room for `n` more heap words.  The test is against the capacity, not the stack, and
      growing leaves the stack where it was. */
  function Reserve(env: Env, s: State, n: nat): (s': State)
    requires WfState(s)
    ensures WfState(s'.(heapTop := s.heapTop)) && s'.heapTop == s.heapTop + n <= |s'.heap|
    ensures s.heapTop + n <= |s.heap| ==> s' == s.(heapTop := s.heapTop + n)
    ensures |s.heap| <= |s'.heap|
  {
    if s.heapTop + n <= |s.heap| then s.(heapTop := s.heapTop + n)
    else s.(heap := s.heap + Zeros(|s.heap| + n), base := env.regrow(s.base), heapTop := s.heapTop + n)
  }

  function MakeClosure(env: Env, s: State, entry: nat, free: nat, dst: nat): (s': State)
    requires WfState(s)
    ensures WfState(s')
  {
    var words := Closure(s, entry, free);
    var r := Reserve(env, s, free + 2);
    var s' := r.(heap := r.heap[..s.heapTop] + words + r.heap[s.heapTop + free + 2..]);
    if IsX(dst) then SetX(s', dst, Boxed(s'.base + s.heapTop)) else s'
  }

  function TableTarget(table: seq<(Term, nat)>, t: Term): Option<nat> {
    if table == [] then None
    else if Pack(table[0].0) == Pack(t) then Some(table[0].1)
    else TableTarget(table[1..], t)
  }

  /** Entry `k` is the first of the table with the word of `t`. */
  predicate FirstHit(table: seq<(Term, nat)>, t: Term, k: nat) {
    k < |table| && Pack(table[k].0) == Pack(t) && forall j :: 0 <= j < k ==> Pack(table[j].0) != Pack(t)
  }

  /** The search finds the first entry with the word, and nothing exactly when there is none. */
  lemma {:induction false} TableSearch(table: seq<(Term, nat)>, t: Term)
    ensures TableTarget(table, t).None? <==> forall k :: 0 <= k < |table| ==> Pack(table[k].0) != Pack(t)
    ensures forall k: nat :: FirstHit(table, t, k) ==> TableTarget(table, t) == Some(table[k].1)
    decreases |table|
  {
    hide Pack;
    if table != [] {
      var rest := table[1..];
      TableSearch(rest, t);
      assert forall k :: 1 <= k < |table| ==> table[k] == rest[k - 1];
      if Pack(table[0].0) != Pack(t) {
        forall k: nat | FirstHit(table, t, k) ensures TableTarget(table, t) == Some(table[k].1) {
          assert FirstHit(rest, t, k - 1);
        }
      }
    }
  }

  /** C's division, which truncates toward zero. */
  function TruncDiv(a: int, b: int): int
    requires b != 0
  {
    if (a >= 0) == (b > 0) then (if a >= 0 then a else -a) / (if b > 0 then b else -b)
    else -((if a >= 0 then a else -a) / (if b > 0 then b else -b))
  }

  function Arith(i: Instr, a: int, b: int): Option<int>
    requires i.Add? || i.Sub? || i.Mul? || i.IntDiv?
  {
    match i
    case Add(_, _, _) => Some(a + b)
    case Sub(_, _, _) => Some(a - b)
    case Mul(_, _, _) => Some(a * b)
    case IntDiv(_, _, _) => if b == 0 then None else Some(TruncDiv(a, b))
  }

  // ---------- one instruction ----------

  function Halted(s: State, res: Status): Outcome {
    Stop(s, None, res, None)
  }

  /** Falls through to the next instruction. */
  function Then(s: State): Outcome {
    Next(s.(ip := s.ip + 1))
  }

  function StepArith(i: Instr, s: State): Outcome
    requires WfState(s) && (i.Add? || i.Sub? || i.Mul? || i.IntDiv?)
  {
    if IsX(i.r1) && IsX(i.r2) && IsX(i.dst) then
      match Arith(i, SmallOf(s.x[i.r1]), SmallOf(s.x[i.r2]))
      case None => Halted(s, BadArg)
      case Some(v) => Then(SetX(s, i.dst, MakeSmall(v)))
    else Then(s)
  }

  function StepStack(i: Instr, s: State): Outcome
    requires WfState(s) && (i.Allocate? || i.Deallocate? || i.Call? || i.CallLast? || i.Return?)
  {
    match i
    case Allocate(words) =>
      var (s', status) := AllocateFrame(s, words);
      if status.Ok? then Then(s') else Halted(s', status)
    case Deallocate(words) =>
      var (s', status) := PopFrame(s, words);
      if status.Ok? then Then(s') else Halted(s', status)
    case Call(target) => Next(s.(cp := (s.ip + 1) % UINT32_SPAN, ip := target))
    case CallLast(target, words) =>
      var (s', status) := PopFrame(s, words);
      if status.Ok? then Next(s'.(ip := target)) else Halted(s', status)
    case Return => Next(s.(ip := s.cp))
  }

  function StepMessage(env: Env, i: Instr, s: State): Outcome
    requires WfState(s) && (i.Send? || i.LoopRec? || i.LoopRecEnd? || i.RemoveMessage? || i.Wait?)
  {
    match i
    case Send(reg, to) =>
      if IsX(reg) && to.Some? then
        if to.value == s.pid then Then(s.(mbox := Enqueue(s.mbox, s.x[reg])))
        else Then(s.(outbox := s.outbox + [(to.value, s.x[reg])]))
      else Then(s)
    case LoopRec(fail, dst) =>
      var mb := Peek(s.mbox);
      if mb.cursor.Some? then
        var s' := s.(mbox := mb);
        Then(if IsX(dst) then SetX(s', dst, mb.queue[mb.cursor.value]) else s')
      else Next(Jump(env, s.(mbox := Reset(mb)), fail))
    case LoopRecEnd(loop) => Next(Jump(env, s.(mbox := Advance(s.mbox)), loop))
    case RemoveMessage => Then(s.(mbox := RemoveCurrent(s.mbox)))
    case Wait => Stop(s, Some(Waiting), Ok, None)
  }

  function StepCatch(env: Env, i: Instr, s: State): Outcome
    requires WfState(s) && (i.Try? || i.TryCase? || i.TryEnd? || i.Raise?)
  {
    match i
    case Try(handler) =>
      if |s.catches| >= MAX_CATCH_DEPTH then Halted(s, NoMemory)
      else Then(s.(catches := s.catches + [CatchFrame(handler, s.stackTop, s.cp)]))
    case TryCase => Then(s)
    case TryEnd => Then(if s.catches == [] then s else s.(catches := s.catches[..|s.catches| - 1]))
    case Raise(reg) =>
      var exc := if IsX(reg) then s.x[reg] else Raw(0);
      if s.catches == [] then Stop(s, Some(Exited), Exception, None)
      else
        var cf := s.catches[|s.catches| - 1];
        Next(Jump(env, SetX(s.(stackTop := cf.stackTop, catches := s.catches[..|s.catches| - 1]), 0, exc), cf.target))
  }

  function StepTerm(env: Env, i: Instr, s: State): Outcome
    requires WfState(s) && WfInstr(i)
    requires i.MatchTuple? || i.GetTupleElement? || i.TestIsEqExact? || i.TestIsNeExact? || i.TestIsTuple?
             || i.TestIsList? || i.GetList? || i.SelectVal?
  {
    match i
    case MatchTuple(src, arity) =>
      if IsX(src) && (!TupleAt(env, s, s.x[src]) || TupleArity(env, s, s.x[src]) != arity) then Halted(s, BadArg)
      else Then(s)
    case GetTupleElement(src, index, dst) =>
      if IsX(src) && IsX(dst) then
        var t := s.x[src];
        Then(SetX(s, dst, if TupleAt(env, s, t) then Deref(env, s, t.addr + 1 + index) else Raw(0)))
      else Then(s)
    case TestIsEqExact(fail, r1, r2) =>
      if Pack(s.x[r1]) != Pack(s.x[r2]) then Next(Jump(env, s, fail)) else Then(s)
    case TestIsNeExact(fail, r1, r2) =>
      if Pack(s.x[r1]) == Pack(s.x[r2]) then Next(Jump(env, s, fail)) else Then(s)
    case TestIsTuple(fail, r1) =>
      if !TupleAt(env, s, s.x[r1]) then Next(Jump(env, s, fail)) else Then(s)
    case TestIsList(fail, r1) =>
      if !s.x[r1].List? && !s.x[r1].Nil? then Next(Jump(env, s, fail)) else Then(s)
    case GetList(src, head, tail) =>
      var t := s.x[src];
      if t.List? then
        Then(SetX(SetX(s, head, Deref(env, s, t.addr)), tail, Deref(env, s, t.addr + 1)))
      else Halted(s, BadArg)
    case SelectVal(src, fail, table) =>
      match TableTarget(table, s.x[src])
      case Some(id) => Next(Jump(env, s, id))
      case None => Next(Jump(env, s, fail))
  }

  /** The instruction at `ip`. */
  function Step(env: Env, s: State): (o: Outcome)
    requires WfCode(env.code) && WfState(s) && s.ip < |env.code|
  {
    var i := env.code[s.ip];
    match i
    case Label(_) => Then(s)
    case Move(dst, literal) => Then(if IsX(dst) then SetX(s, dst, literal) else s)
    case Add(_, _, _) => StepArith(i, s)
    case Sub(_, _, _) => StepArith(i, s)
    case Mul(_, _, _) => StepArith(i, s)
    case IntDiv(_, _, _) => StepArith(i, s)
    case Allocate(_) => StepStack(i, s)
    case Deallocate(_) => StepStack(i, s)
    case Call(_) => StepStack(i, s)
    case CallLast(_, _) => StepStack(i, s)
    case Return => StepStack(i, s)
    case Send(_, _) => StepMessage(env, i, s)
    case LoopRec(_, _) => StepMessage(env, i, s)
    case LoopRecEnd(_) => StepMessage(env, i, s)
    case RemoveMessage => StepMessage(env, i, s)
    case Wait => StepMessage(env, i, s)
    case Try(_) => StepCatch(env, i, s)
    case TryCase => StepCatch(env, i, s)
    case TryEnd => StepCatch(env, i, s)
    case Raise(_) => StepCatch(env, i, s)
    case CallExt(bif, argc) =>
      var (status, t) := env.bif(bif, argc, s);
      if status.Ok? then Then(SetX(s, 0, t)) else Halted(s, status)
    case MakeFun2(entry, free, dst) => Then(MakeClosure(env, s, entry, free, dst))
    case HaltOp => Stop(s, Some(Exited), Halt, Some(s.x[0]))
    case Unknown => Halted(s, BadArg)
    case _ => StepTerm(env, i, s)
  }

  lemma StepMessageWf(env: Env, i: Instr, s: State)
    requires WfState(s) && (i.Send? || i.LoopRec? || i.LoopRecEnd? || i.RemoveMessage? || i.Wait?)
    ensures WfState(StepMessage(env, i, s).s)
  {
    hide FindLabel;
  }

  lemma StepCatchWf(env: Env, i: Instr, s: State)
    requires WfState(s) && (i.Try? || i.TryCase? || i.TryEnd? || i.Raise?)
    ensures WfState(StepCatch(env, i, s).s)
  {
    hide FindLabel;
  }

  lemma StepTermWf(env: Env, i: Instr, s: State)
    requires WfState(s) && WfInstr(i)
    requires i.MatchTuple? || i.GetTupleElement? || i.TestIsEqExact? || i.TestIsNeExact? || i.TestIsTuple?
             || i.TestIsList? || i.GetList? || i.SelectVal?
    ensures WfState(StepTerm(env, i, s).s)
  {
    hide FindLabel, Deref, TableTarget, TupleAt, TupleArity, Pack;
  }

  /** Every instruction keeps the state well formed: at most 64 catch frames, heap top, stack
      top and saved tops within the capacity, the cursor on a message. */
  lemma StepWf(env: Env, s: State)
    requires WfCode(env.code) && WfState(s) && s.ip < |env.code|
    ensures WfState(Step(env, s).s)
  {
    hide StepMessage, StepCatch, StepTerm, Arith, AllocateFrame, PopFrame, MakeClosure;
    var i := env.code[s.ip];
    if i.Send? || i.LoopRec? || i.LoopRecEnd? || i.RemoveMessage? || i.Wait? {
      StepMessageWf(env, i, s);
    } else if i.Try? || i.TryCase? || i.TryEnd? || i.Raise? {
      StepCatchWf(env, i, s);
    } else if i.MatchTuple? || i.GetTupleElement? || i.TestIsEqExact? || i.TestIsNeExact? || i.TestIsTuple?
              || i.TestIsList? || i.GetList? || i.SelectVal? {
      StepTermWf(env, i, s);
    }
  }
}
