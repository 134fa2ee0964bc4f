/** Where the interpreter's instructions go and what they deliver, instruction by instruction and
    for whole small programs. */
module EmuBranches {
  import opened BeamCore
  import opened HeapValues
  import opened ErlProcess
  import opened MailboxModel
  import opened BeamBif
  import opened BeamEmu
  import opened EmuSlices
  import opened EmuValues

  // ---------- jumps ----------

  /** `t` is `s` moved to the first label `id`, or left where it is when there is none. */
  ghost predicate Lands(code: seq<Instr>, s: State, t: State, id: nat) {
    && t == s.(ip := t.ip)
    && (Label(id) in code ==> t.ip < |code| && code[t.ip] == Label(id) && forall k :: 0 <= k < t.ip ==> code[k] != Label(id))
    && (Label(id) !in code ==> t.ip == s.ip)
  }

  lemma JumpLands(env: Env, s: State, id: nat)
    ensures Lands(env.code, s, Jump(env, s, id), id)
  {
    hide FindLabel;
  }

  /** SELECT_VAL goes to the label of the first entry whose key is the register's word, and to the
      fail label when no key is. */
  lemma SelectValJumps(env: Env, s: State, src: nat, fail: nat, table: seq<(Term, nat)>)
    requires WfState(s) && IsX(src)
    ensures var o := StepTerm(env, SelectVal(src, fail, table), s);
            && o.Next?
            && ((forall k :: 0 <= k < |table| ==> Pack(table[k].0) != Pack(s.x[src])) ==> Lands(env.code, s, o.s, fail))
            && (forall k: nat :: FirstHit(table, s.x[src], k) ==> Lands(env.code, s, o.s, table[k].1))
  {
    hide Pack, TableTarget, Jump, Lands;
    TableSearch(table, s.x[src]);
    JumpLands(env, s, fail);
    if TableTarget(table, s.x[src]).Some? {
      JumpLands(env, s, TableTarget(table, s.x[src]).value);
    }
  }

  /** The two exact comparisons are opposite: one falls through exactly for equal values that are
      immediate or stand at one address, the other exactly for all else. */
  lemma ComparisonsDecide(env: Env, s: State, vs: seq<Value>, fail: nat, r1: nat, r2: nat)
    requires Reads(s, vs) && IsX(r1) && IsX(r2) && Canonical(s.x[r1]) && Canonical(s.x[r2])
    ensures |vs| == NUM_X_REGISTERS
    ensures var same := vs[r1] == vs[r2] && (vs[r1].Block? ==> s.x[r1] == s.x[r2]);
            var eq := StepTerm(env, TestIsEqExact(fail, r1, r2), s);
            var ne := StepTerm(env, TestIsNeExact(fail, r1, r2), s);
            && eq.Next? && ne.Next?
            && (same ==> eq.s == s.(ip := s.ip + 1) && Lands(env.code, s, ne.s, fail))
            && (!same ==> ne.s == s.(ip := s.ip + 1) && Lands(env.code, s, eq.s, fail))
  {
    RegisterCount(s, vs);
    SameWord(s, vs, r1, r2);
    JumpLands(env, s, fail);
    hide Pack, Jump, Lands, Reads;
  }

  lemma SameWord(s: State, vs: seq<Value>, r1: nat, r2: nat)
    requires Reads(s, vs) && |vs| == NUM_X_REGISTERS && IsX(r1) && IsX(r2) && Canonical(s.x[r1]) && Canonical(s.x[r2])
    ensures Pack(s.x[r1]) == Pack(s.x[r2]) <==> vs[r1] == vs[r2] && (vs[r1].Block? ==> s.x[r1] == s.x[r2])
  {
    hide Pack, Represents;
    var m := LiveHeap(s);
    ExactComparison(m, s.x[r1], s.x[r2], vs[r1], vs[r2]);
    PackInjective(s.x[r1], s.x[r2]);
    BlockParts(m, s.x[r1], vs[r1]);
    BlockParts(m, s.x[r2], vs[r2]);
  }

  // ---------- registers and messages ----------

  /** MOVE puts its literal into one register. */
  lemma MoveLoads(env: Env, s: State, vs: seq<Value>, dst: nat, literal: Term)
    requires WfCode(env.code) && s.ip < |env.code| && env.code[s.ip] == Move(dst, literal)
    requires Reads(s, vs) && IsImmediate(literal)
    ensures |vs| == NUM_X_REGISTERS && Step(env, s).Next?
    ensures var u := Step(env, s).s;
            u.ip == s.ip + 1 && Reads(u, if dst < 256 then vs[dst := Imm(literal)] else vs)
  {
    RegisterCount(s, vs);
    if IsX(dst) {
      RegisterSet(s, vs, dst, literal, Imm(literal));
      IpMoved(SetX(s, dst, literal), vs[dst := Imm(literal)], s.ip + 1);
    } else {
      IpMoved(s, vs, s.ip + 1);
    }
    hide Reads;
  }

  /** SEND puts the register's word at the end of the addressee's messages and touches nothing
      else; the sender's own save cursor stays on its message. */
  lemma SendDelivers(env: Env, s: State, reg: nat, to: Option<nat>)
    requires WfState(s)
    ensures var o := StepMessage(env, Send(reg, to), s);
            && o.Next?
            && (reg >= 256 || to.None? ==> o.s == s.(ip := s.ip + 1))
            && (reg < 256 && to.Some? && to.value != s.pid ==>
                  o.s == s.(ip := s.ip + 1, outbox := s.outbox + [(to.value, s.x[reg])]))
            && (reg < 256 && to == Some(s.pid) ==>
                  o.s == s.(ip := s.ip + 1, mbox := Mbox(s.mbox.queue + [s.x[reg]], s.mbox.cursor)))
  {
  }

  /** LOOP_REC on an empty mailbox goes to its fail label; otherwise it shows the message under the
      cursor, the first one when the cursor is null. */
  lemma LoopRecShows(env: Env, s: State, fail: nat, dst: nat)
    requires WfState(s)
    ensures var o := StepMessage(env, LoopRec(fail, dst), s);
            && o.Next?
            && (s.mbox.queue == [] ==> Lands(env.code, s, o.s, fail))
            && (s.mbox.queue != [] ==>
                  var c := if s.mbox.cursor.None? then 0 else s.mbox.cursor.value;
                  o.s == s.(x := if dst < 256 then s.x[dst := s.mbox.queue[c]] else s.x,
                            ip := s.ip + 1, mbox := Mbox(s.mbox.queue, Some(c))))
  {
    JumpLands(env, s, fail);
    hide Jump, Lands;
  }

  /** `answer` is what function `index` answers on the registers of `s`. */
  ghost predicate AnswersFor(index: nat, arity: int, s: State, vs: seq<Value>, answer: (Status, Term)) {
    |s.x| >= 2 && |vs| >= 1 && IsAnswer(index, s.pid, s.x, arity, vs[0], answer.0, answer.1)
  }

  /** The table of functions the interpreter calls is `beam_bif_dispatch`. */
  ghost predicate CallsBifs(env: Env) {
    forall index: nat, arity, s, vs {:trigger env.bif(index, arity, s), Reads(s, vs)} ::
      Reads(s, vs) ==> AnswersFor(index, arity, s, vs, env.bif(index, arity, s))
  }

  /** CALL_EXT puts the answer into x0, or stops with NOT_FOUND for an index past the table. */
  lemma CallExtAnswers(env: Env, s: State, vs: seq<Value>, index: nat, arity: int)
    requires CallsBifs(env) && WfCode(env.code) && s.ip < |env.code| && env.code[s.ip] == CallExt(index, arity)
    requires Reads(s, vs)
    ensures |vs| == NUM_X_REGISTERS
    ensures index > 5 ==> Step(env, s) == Stop(s, None, NotFound, None)
    ensures index <= 5 ==>
              && Step(env, s).Next?
              && var u := Step(env, s).s;
                 && |u.x| == 256 && u == s.(x := s.x[0 := u.x[0]], ip := s.ip + 1)
                 && IsAnswer(index, s.pid, s.x, arity, vs[0], Ok, u.x[0])
  {
    RegisterCount(s, vs);
    var (status, t) := env.bif(index, arity, s);
    assert IsAnswer(index, s.pid, s.x, arity, vs[0], status, t);
    hide IsAnswer, Reads;
    AnswerStatus(index, s.pid, s.x, arity, vs[0], status, t);
  }

  lemma AnswerExists(index: nat, pid: nat, args: seq<Term>, arity: int, v: Value)
    requires |args| >= 2
    ensures exists status, r :: IsAnswer(index, pid, args, arity, v, status, r)
  {
    hide SmallOf, Pack;
    var status := if index <= 5 then Ok else NotFound;
    PidWords(pid, pid);
    FlagWords();
    SmallRoundTrip(SmallOf(args[0]) + SmallOf(args[1]));
    SmallRoundTrip(SmallOf(args[0]) - SmallOf(args[1]));
    var r :=
      if index == 0 then MakePid(pid)
      else if arity < (if index <= 2 then 2 else 1) then Raw(0)
      else if index == 1 then MakeSmall(SmallOf(args[0]) + SmallOf(args[1]))
      else if index == 2 then MakeSmall(SmallOf(args[0]) - SmallOf(args[1]))
      else if index == 3 then Flag(!v.Block? && Pack(v.term) % 16 == 11)
      else if index == 4 then Flag(v.Block? && v.kind.TupleKind?)
      else MakeSmall(ChainLength(v));
    assert IsAnswer(index, pid, args, arity, v, status, r);
  }

  ghost function AnyAnswer(index: nat, arity: int, s: State): (Status, Term) {
    if vs, answer :| Reads(s, vs) && AnswersFor(index, arity, s, vs, answer) then answer else (Ok, Raw(0))
  }

  lemma AnyAnswerFits(index: nat, arity: int, s: State, vs: seq<Value>)
    requires Reads(s, vs)
    ensures AnswersFor(index, arity, s, vs, AnyAnswer(index, arity, s))
  {
    hide Represents, IsAnswer;
    RegisterCount(s, vs);
    AnswerExists(index, s.pid, s.x, arity, vs[0]);
    var status, r :| IsAnswer(index, s.pid, s.x, arity, vs[0], status, r);
    assert AnswersFor(index, arity, s, vs, (status, r));
    var vs', answer :| Reads(s, vs') && AnswersFor(index, arity, s, vs', answer) && AnyAnswer(index, arity, s) == answer;
    RegisterCount(s, vs');
    RepresentsUnique(LiveHeap(s), s.x[0], vs[0], vs'[0]);
  }

  /** Every environment has such a table: the value of x0, which an answer is about, is determined. */
  lemma BifTable(env: Env)
    ensures CallsBifs(env.(bif := (index: nat, arity, s) => AnyAnswer(index, arity, s)))
  {
    hide Reads, AnswersFor, AnyAnswer;
    forall index: nat, arity, s, vs | Reads(s, vs)
      ensures AnswersFor(index, arity, s, vs, AnyAnswer(index, arity, s))
    {
      AnyAnswerFits(index, arity, s, vs);
    }
  }

  lemma AnswerStatus(index: nat, pid: nat, args: seq<Term>, arity: int, v: Value, status: Status, r: Term)
    requires |args| >= 2 && IsAnswer(index, pid, args, arity, v, status, r)
    ensures status == if index <= 5 then Ok else NotFound
  {
  }

  lemma LengthAnswer(pid: nat, args: seq<Term>, v: Value, es: seq<Value>, r: Term)
    requires |args| >= 2 && v == ListOf(es) && IsAnswer(5, pid, args, 1, v, Ok, r)
    ensures r == MakeSmall(|es|)
  {
    LengthOfList(es);
  }

  /** `length/1` of a list in x0. */
  lemma LengthCalled(env: Env, s: State, vs: seq<Value>, es: seq<Value>)
    requires CallsBifs(env) && WfCode(env.code) && s.ip < |env.code| && env.code[s.ip] == CallExt(5, 1)
    requires Reads(s, vs) && |vs| > 0 && vs[0] == ListOf(es)
    ensures Step(env, s) == Next(s.(x := s.x[0 := MakeSmall(|es|)], ip := s.ip + 1))
  {
    hide Step, IsAnswer, CallsBifs, ListOf, MakeSmall, Represents;
    CallExtAnswers(env, s, vs, 5, 1);
    LengthAnswer(s.pid, s.x, vs[0], es, Step(env, s).s.x[0]);
  }

  /** The instruction has a register operand past the last register and tests for it. */
  predicate GuardFails(i: Instr) {
    match i
    case Move(dst, _) => dst >= 256
    case Add(r1, r2, dst) => r1 >= 256 || r2 >= 256 || dst >= 256
    case Sub(r1, r2, dst) => r1 >= 256 || r2 >= 256 || dst >= 256
    case Mul(r1, r2, dst) => r1 >= 256 || r2 >= 256 || dst >= 256
    case IntDiv(r1, r2, dst) => r1 >= 256 || r2 >= 256 || dst >= 256
    case MatchTuple(src, _) => src >= 256
    case GetTupleElement(src, _, dst) => src >= 256 || dst >= 256
    case _ => false
  }

  /** Such an instruction does nothing, and nor do labels and the two case markers. */
  lemma DoesNothing(env: Env, s: State)
    requires WfCode(env.code) && WfState(s) && s.ip < |env.code|
    requires GuardFails(env.code[s.ip]) || env.code[s.ip].Label? || env.code[s.ip].TryCase?
    ensures Step(env, s) == Next(s.(ip := s.ip + 1))
  {
    hide Arith, TupleAt, TupleArity, Deref;
  }

  // ---------- limits ----------

  /** A frame is the saved return address and zeros below it.  It is pushed exactly when all of it
      fits above the heap; otherwise the pushes stop at the heap. */
  lemma PushLimits(s: State, words: nat)
    requires WfState(s)
    ensures var o := StepStack(Allocate(words), s);
            && (o.Next? <==> s.heapTop + words + 1 <= s.stackTop)
            && (o.Stop? ==> o.state == None && o.res == NoMemory && o.out == None)
            && o.s == s.(heap := o.s.heap, stackTop := o.s.stackTop, ip := if o.Next? then s.ip + 1 else s.ip)
            && (o.Next? ==> o.s.stackTop == s.stackTop - (words + 1))
            && (o.Stop? ==> o.s.stackTop == if s.stackTop > s.heapTop then s.heapTop else s.stackTop)
            && |o.s.heap| == |s.heap|
            && forall k :: 0 <= k < |s.heap| ==>
                 o.s.heap[k] == if k < o.s.stackTop || k >= s.stackTop then s.heap[k]
                                else if k == s.stackTop - 1 then Raw(s.cp) else Raw(0)
  {
    hide Pack;
  }

  /** The words of a frame are popped exactly when that many are left, and the last of them, cut to
      32 bits, is the return address again; otherwise the stack is left empty. */
  lemma PopLimits(s: State, i: Instr)
    requires WfState(s) && (i.Deallocate? || i.CallLast?)
    ensures var o, top := StepStack(i, s), s.stackTop + i.words + 1;
            && (o.Next? <==> top <= |s.heap|)
            && (o.Next? ==> o.s == s.(stackTop := top, cp := Pack(s.heap[top - 1]) % 0x1_0000_0000,
                                      ip := if i.CallLast? then i.target else s.ip + 1))
            && (o.Stop? ==> o.state == None && o.res == BadArg && o.out == None && o.s == s.(stackTop := |s.heap|))
  {
    hide Pack;
  }

  /** Sixty-four handlers are the limit; TRY_END drops the innermost, if any. */
  lemma HandlerLimits(env: Env, s: State, handler: nat)
    requires WfState(s)
    ensures var o := StepCatch(env, Try(handler), s);
            if |s.catches| < 64 then
              o == Next(s.(ip := s.ip + 1, catches := s.catches + [CatchFrame(handler, s.stackTop, s.cp)]))
            else o == Stop(s, None, NoMemory, None)
    ensures var o := StepCatch(env, TryEnd, s);
            o == Next(s.(ip := s.ip + 1, catches := if s.catches == [] then [] else s.catches[..|s.catches| - 1]))
  {
  }

  // ---------- how programs end ----------

  /** A new process that loads x0 and returns runs off the end of its code: the slice is over with
      x0 as its value and no state written. */
  lemma TopLevelReturn(env: Env, s: State, literal: Term, r: int)
    requires env.code == [Move(0, literal), Return] && WfState(s) && s.ip == 0 && s.cp == 0 && r >= 3
    ensures var e := Execute(env, s, r, false);
            && e.kind.Finished? && e.state == None && e.res == Ok && e.out == Some(literal) && e.steps == 2
            && e.s == s.(x := e.s.x, cp := 2, ip := 2)
  {
    var s0 := Enter(env, s);
    var s1 := SetX(s0, 0, literal).(ip := 1);
    var s2 := s1.(ip := 2);
    assert Step(env, s0) == Next(s1) && Step(env, s1) == Next(s2) && WfState(s1) && WfState(s2);
    hide Step;
    assert Run(env, s2, r - 2) == End(Finished, s2, None, Ok, Some(literal), 0);
    assert Run(env, s1, r - 1) == End(Finished, s2, None, Ok, Some(literal), 1);
    assert Run(env, s0, r) == End(Finished, s2, None, Ok, Some(literal), 2);
  }

  /** HALT ends the process with x0 as its value, an opcode without a case with BADARG and the state
      as it was, WAIT without a value. */
  lemma Endings(env: Env, s: State)
    requires WfCode(env.code) && WfState(s) && s.ip < |env.code|
    ensures env.code[s.ip].HaltOp? ==> Step(env, s) == Stop(s, Some(Exited), Halt, Some(s.x[0]))
    ensures env.code[s.ip].Unknown? ==> Step(env, s) == Stop(s, None, BadArg, None)
    ensures env.code[s.ip].Wait? ==> Step(env, s) == Stop(s, Some(Waiting), Ok, None)
  {
  }
}
