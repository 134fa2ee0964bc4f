/** `beam_emu_execute_code` on the process record: the dispatch loop and its opcodes. */
module EmuExec {
  import opened BeamCore
  import opened MailboxModel
  import opened ErlProcess
  import opened BeamEmu
  import opened EmuSlices

  /** The process seen as a machine state; `ip` is the loop's local instruction pointer. */
  function Snap(proc: Process, ip: nat): State
    reads proc, proc.heap, proc.x
  {
    State(proc.pid, proc.x[..], proc.heap[..], proc.base, proc.heapTop, proc.stackTop, proc.cp, ip,
          proc.catches, proc.mailbox, proc.outbox)
  }

  ghost predicate Ready(proc: Process)
    reads proc, proc.heap, proc.x
  {
    proc.Valid() && WfState(Snap(proc, 0))
  }

  /** What a stopping instruction hands to the caller. */
  datatype Exit = Exit(state: Option<ProcState>, res: Status, out: Option<Term>)

  /** The process and the local `ip'` are what outcome `o` says. */
  ghost predicate Did(o: Outcome, proc: Process, ip': nat, exit: Option<Exit>)
    reads proc, proc.heap, proc.x
  {
    && Ready(proc)
    && Snap(proc, ip') == o.s
    && match o
       case Next(_) => exit.None?
       case Stop(_, state, res, out) => exit == Some(Exit(state, res, out))
  }

  method JumpToLabel(code: seq<Instr>, ip: nat, id: nat) returns (ip': nat)
    ensures ip' == match FindLabel(code, id, 0) case Some(k) => k case None => ip
  {
    var scan := 0;
    while scan < |code|
      invariant scan <= |code| && FindLabel(code, id, 0) == FindLabel(code, id, scan)
    {
      if code[scan] == Label(id) {
        return scan;
      }
      scan := scan + 1;
    }
    ip' := ip;
  }

  /** The pushes of ALLOCATE. */
  method PushFrame(proc: Process, words: nat, ghost ip: nat) returns (status: Status)
    requires Ready(proc)
    modifies proc`stackTop, proc.heap
    ensures Ready(proc) && (Snap(proc, ip), status) == AllocateFrame(old(Snap(proc, ip)), words)
  {
    hide AllocateFrame;
    ghost var s := Snap(proc, ip);
    status := proc.StackPush(Raw(proc.cp));
    if status != Ok {
      NoRoomForFrame(s, words);
      return;
    }
    var w := 0;
    while w < words
      invariant Ready(proc) && w <= words && status == Ok
      invariant Pushed(s, Snap(proc, ip), w)
    {
      status := proc.StackPush(Raw(0));
      if status != Ok {
        PushedFrame(s, Snap(proc, ip), w, words);
        return;
      }
      w := w + 1;
    }
    PushedFrame(s, Snap(proc, ip), w, words);
  }

  /** `t` is `s` after the pushes of `cp` and `w` zeros. */
  ghost predicate Pushed(s: State, t: State, w: nat) {
    && w + 1 <= s.stackTop - s.heapTop
    && |t.heap| == |s.heap| && t == s.(heap := t.heap, stackTop := s.stackTop - w - 1)
    && s.stackTop <= |s.heap| && t.heap[s.stackTop - 1] == Raw(s.cp)
    && (forall k :: t.stackTop <= k < s.stackTop - 1 ==> t.heap[k] == Raw(0))
    && (forall k :: 0 <= k < t.stackTop || s.stackTop <= k < |s.heap| ==> t.heap[k] == s.heap[k])
  }

  lemma PushedFrame(s: State, t: State, w: nat, words: nat)
    requires WfState(s) && Pushed(s, t, w) && w <= words && (w < words ==> t.stackTop == s.heapTop)
    ensures (t, if w == words then Ok else NoMemory) == AllocateFrame(s, words)
  {
    assert t.heap[t.stackTop..s.stackTop] == FrameWords(s.cp, w);
    assert t.heap == s.heap[..s.stackTop - w - 1] + FrameWords(s.cp, w) + s.heap[s.stackTop..];
  }

  lemma NoRoomForFrame(s: State, words: nat)
    requires WfState(s) && s.stackTop <= s.heapTop
    ensures AllocateFrame(s, words) == (s, NoMemory)
  {
    assert s.heap == s.heap[..s.stackTop] + [] + s.heap[s.stackTop..];
  }

  /** The pops of DEALLOCATE and CALL_LAST. */
  method DropFrame(proc: Process, words: nat, ghost ip: nat) returns (status: Status)
    requires Ready(proc)
    modifies proc`stackTop, proc`cp
    ensures Ready(proc) && (Snap(proc, ip), status) == PopFrame(old(Snap(proc, ip)), words)
  {
    var dummy;
    for w := 0 to words
      invariant Ready(proc) && proc.cp == old(proc.cp) && proc.stackTop == old(proc.stackTop) + w
    {
      status, dummy := proc.StackPop();
      if status != Ok {
        return;
      }
    }
    status, dummy := proc.StackPop();
    if status == Ok {
      proc.cp := Pack(dummy) % UINT32_SPAN;
    }
  }

  method DoArith(i: Instr, proc: Process, ip: nat) returns (ip': nat, exit: Option<Exit>)
    requires Ready(proc) && (i.Add? || i.Sub? || i.Mul? || i.IntDiv?)
    modifies proc.x
    ensures Did(StepArith(i, old(Snap(proc, ip))), proc, ip', exit)
  {
    hide SmallOf, MakeSmall;
    ip', exit := ip, None;
    if i.r1 < NUM_X_REGISTERS && i.r2 < NUM_X_REGISTERS && i.dst < NUM_X_REGISTERS {
      var v1, v2 := SmallOf(proc.x[i.r1]), SmallOf(proc.x[i.r2]);
      match i {
        case Add(_, _, _) => proc.x[i.dst] := MakeSmall(v1 + v2);
        case Sub(_, _, _) => proc.x[i.dst] := MakeSmall(v1 - v2);
        case Mul(_, _, _) => proc.x[i.dst] := MakeSmall(v1 * v2);
        case IntDiv(_, _, _) =>
          if v2 == 0 {
            exit := Some(Exit(None, BadArg, None));
            return;
          }
          proc.x[i.dst] := MakeSmall(TruncDiv(v1, v2));
      }
    }
    ip' := ip + 1;
  }

  method DoStack(i: Instr, proc: Process, ip: nat) returns (ip': nat, exit: Option<Exit>)
    requires Ready(proc) && (i.Allocate? || i.Deallocate? || i.Call? || i.CallLast? || i.Return?)
    modifies proc`stackTop, proc`cp, proc.heap
    ensures Did(StepStack(i, old(Snap(proc, ip))), proc, ip', exit)
  {
    hide AllocateFrame, PopFrame;
    ip', exit := ip, None;
    var status;
    match i {
      case Allocate(words) => status := PushFrame(proc, words, ip); ip' := ip + 1;
      case Deallocate(words) => status := DropFrame(proc, words, ip); ip' := ip + 1;
      case Call(target) => proc.cp := (ip + 1) % UINT32_SPAN; ip' := target; return;
      case CallLast(target, words) => status := DropFrame(proc, words, ip); ip' := target;
      case Return => ip' := proc.cp; return;
    }
    if status != Ok {
      ip', exit := ip, Some(Exit(None, status, None));
    }
  }

  method DoMessage(env: Env, i: Instr, proc: Process, ip: nat) returns (ip': nat, exit: Option<Exit>)
    requires Ready(proc) && (i.Send? || i.LoopRec? || i.LoopRecEnd? || i.RemoveMessage? || i.Wait?)
    modifies proc`mailbox, proc`outbox, proc.x
    ensures Did(StepMessage(env, i, old(Snap(proc, ip))), proc, ip', exit)
  {
    hide FindLabel;
    ip', exit := ip, None;
    match i {
      case Send(reg, to) =>
        if reg < NUM_X_REGISTERS && to.Some? {
          var msg := proc.x[reg];
          if to.value == proc.pid {
            proc.mailbox := Enqueue(proc.mailbox, msg);
          } else {
            proc.outbox := proc.outbox + [(to.value, msg)];
          }
        }
      case LoopRec(fail, dst) =>
        proc.mailbox := Peek(proc.mailbox);
        if proc.mailbox.cursor.Some? {
          if dst < NUM_X_REGISTERS {
            proc.x[dst] := proc.mailbox.queue[proc.mailbox.cursor.value];
          }
        } else {
          proc.mailbox := Reset(proc.mailbox);
          ip' := JumpToLabel(env.code, ip, fail);
          return;
        }
      case LoopRecEnd(loop) =>
        proc.mailbox := Advance(proc.mailbox);
        ip' := JumpToLabel(env.code, ip, loop);
        return;
      case RemoveMessage => proc.mailbox := RemoveCurrent(proc.mailbox);
      case Wait =>
        exit := Some(Exit(Some(Waiting), Ok, None));
        return;
    }
    ip' := ip + 1;
  }

  method DoCatch(env: Env, i: Instr, proc: Process, ip: nat) returns (ip': nat, exit: Option<Exit>)
    requires Ready(proc) && (i.Try? || i.TryCase? || i.TryEnd? || i.Raise?)
    modifies proc`catches, proc`stackTop, proc.x
    ensures Did(StepCatch(env, i, old(Snap(proc, ip))), proc, ip', exit)
  {
    hide FindLabel;
    ip', exit := ip, None;
    var depth := |proc.catches|;
    match i {
      case Try(handler) =>
        if depth >= MAX_CATCH_DEPTH {
          exit := Some(Exit(None, NoMemory, None));
          return;
        }
        proc.catches := proc.catches + [CatchFrame(handler, proc.stackTop, proc.cp)];
      case TryCase =>
      case TryEnd =>
        if depth > 0 {
          proc.catches := proc.catches[..depth - 1];
        }
      case Raise(reg) =>
        var exc := if reg < NUM_X_REGISTERS then proc.x[reg] else Raw(0);
        if depth == 0 {
          exit := Some(Exit(Some(Exited), Exception, None));
          return;
        }
        var cf := proc.catches[depth - 1];
        proc.stackTop := cf.stackTop;
        proc.catches := proc.catches[..depth - 1];
        proc.x[0] := exc;
        ip' := JumpToLabel(env.code, ip, cf.target);
        return;
    }
    ip' := ip + 1;
  }

  /** A read through a pointer. */
  method ReadWord(env: Env, proc: Process, addr: nat, ghost ip: nat) returns (t: Term)
    requires Ready(proc)
    ensures t == Deref(env, Snap(proc, ip), addr)
  {
    if proc.base <= addr < proc.base + proc.heap.Length {
      t := proc.heap[addr - proc.base];
    } else {
      t := env.foreign(addr);
    }
  }

  method TestTuple(env: Env, proc: Process, t: Term, ghost ip: nat) returns (yes: bool, arity: nat)
    requires Ready(proc)
    ensures yes <==> TupleAt(env, Snap(proc, ip), t)
    ensures yes ==> t.Boxed? && arity == TupleArity(env, Snap(proc, ip), t)
  {
    yes, arity := false, 0;
    if t.Boxed? && t.addr != 0 {
      var header := ReadWord(env, proc, t.addr, ip);
      yes := IsHeader(header);
      if yes {
        arity := header.n / 64;
      }
    }
  }

  method SelectTarget(table: seq<(Term, nat)>, t: Term) returns (id: Option<nat>)
    ensures id.None? ==> forall k :: 0 <= k < |table| ==> Pack(table[k].0) != Pack(t)
    ensures id.Some? ==> exists k: nat :: FirstHit(table, t, k) && id.value == table[k].1
    ensures id == TableTarget(table, t)
  {
    hide Pack, TableTarget;
    TableSearch(table, t);
    var k := 0;
    while k < |table|
      invariant k <= |table| && forall j :: 0 <= j < k ==> Pack(table[j].0) != Pack(t)
    {
      if Pack(table[k].0) == Pack(t) {
        assert FirstHit(table, t, k);
        return Some(table[k].1);
      }
      k := k + 1;
    }
    id := None;
  }

  method DoLoad(env: Env, i: Instr, proc: Process, ip: nat) returns (ip': nat, exit: Option<Exit>)
    requires Ready(proc) && WfInstr(i) && (i.GetTupleElement? || i.GetList?)
    modifies proc.x
    ensures Did(StepTerm(env, i, old(Snap(proc, ip))), proc, ip', exit)
  {
    hide TupleAt, TupleArity, Deref;
    ip', exit := ip + 1, None;
    if i.GetTupleElement? {
      if i.src < NUM_X_REGISTERS && i.dst < NUM_X_REGISTERS {
        var t := proc.x[i.src];
        var yes, n := TestTuple(env, proc, t, ip);
        var e := Raw(0);
        if yes {
          e := ReadWord(env, proc, t.addr + 1 + i.index, ip);
        }
        proc.x[i.dst] := e;
      }
    } else {
      var t := proc.x[i.src];
      if t.List? {
        var h := ReadWord(env, proc, t.addr, ip);
        var tl := ReadWord(env, proc, t.addr + 1, ip);
        proc.x[i.head] := h;
        proc.x[i.tail] := tl;
      } else {
        ip', exit := ip, Some(Exit(None, BadArg, None));
      }
    }
  }

  method DoTest(env: Env, i: Instr, proc: Process, ip: nat) returns (ip': nat, exit: Option<Exit>)
    requires Ready(proc) && WfInstr(i) && (i.MatchTuple? || i.TestIsTuple? || i.SelectVal?)
    ensures Did(StepTerm(env, i, Snap(proc, ip)), proc, ip', exit)
  {
    hide FindLabel, TupleAt, TupleArity, TableTarget, Pack;
    ip', exit := ip + 1, None;
    match i {
      case MatchTuple(src, arity) =>
        if src < NUM_X_REGISTERS {
          var yes, n := TestTuple(env, proc, proc.x[src], ip);
          if !yes || n != arity {
            ip', exit := ip, Some(Exit(None, BadArg, None));
          }
        }
      case TestIsTuple(fail, r1) =>
        var yes, n := TestTuple(env, proc, proc.x[r1], ip);
        if !yes {
          ip' := JumpToLabel(env.code, ip, fail);
        }
      case SelectVal(src, fail, table) =>
        var id := SelectTarget(table, proc.x[src]);
        ip' := JumpToLabel(env.code, ip, if id.Some? then id.value else fail);
    }
  }

  method DoCompare(env: Env, i: Instr, proc: Process, ip: nat) returns (ip': nat, exit: Option<Exit>)
    requires Ready(proc) && WfInstr(i) && (i.TestIsEqExact? || i.TestIsNeExact? || i.TestIsList?)
    ensures Did(StepTerm(env, i, Snap(proc, ip)), proc, ip', exit)
  {
    hide FindLabel, Pack;
    ip', exit := ip + 1, None;
    match i {
      case TestIsEqExact(fail, r1, r2) =>
        if Pack(proc.x[r1]) != Pack(proc.x[r2]) {
          ip' := JumpToLabel(env.code, ip, fail);
        }
      case TestIsNeExact(fail, r1, r2) =>
        if Pack(proc.x[r1]) == Pack(proc.x[r2]) {
          ip' := JumpToLabel(env.code, ip, fail);
        }
      case TestIsList(fail, r1) =>
        if !proc.x[r1].List? && !proc.x[r1].Nil? {
          ip' := JumpToLabel(env.code, ip, fail);
        }
    }
  }

  /** Fills in the block of a closure. */
  method WriteClosure(proc: Process, hp: nat, entry: nat, free: nat, ghost s: State, ghost was: seq<Term>)
    requires proc.Valid() && hp + free + 2 <= proc.heap.Length
    requires WfState(s) && proc.x != proc.heap && proc.x[..] == s.x && proc.heap[..] == was
    modifies proc.heap
    ensures proc.heap[..] == was[..hp] + Closure(s, entry, free) + was[hp + free + 2..]
  {
    ghost var words := Closure(s, entry, free);
    proc.heap[hp] := Header(free + 1);
    proc.heap[hp + 1] := MakeSmall(entry);
    for fv := 0 to free
      invariant proc.x[..] == s.x
      invariant forall k :: 0 <= k < |was| && !(hp <= k < hp + 2 + fv) ==> proc.heap[k] == was[k]
      invariant forall k :: 0 <= k < 2 + fv ==> proc.heap[hp + k] == words[k]
    {
      proc.heap[hp + 2 + fv] := if fv < NUM_X_REGISTERS then proc.x[fv] else Raw(0);
    }
    assert proc.heap[hp..hp + free + 2] == words;
  }

  /** MAKE_FUN2. */
  method DoMakeFun(env: Env, entry: nat, free: nat, dst: nat, proc: Process, ghost ip: nat)
    requires Ready(proc)
    modifies proc`heap, proc`base, proc`heapTop, proc.heap, proc.x
    ensures Ready(proc) && (proc.heap == old(proc.heap) || fresh(proc.heap))
    ensures Snap(proc, ip) == MakeClosure(env, old(Snap(proc, ip)), entry, free, dst)
  {
    ghost var s := Snap(proc, ip);
    var hp := proc.AllocHeap(free + 2, env.regrow(proc.base));
    ghost var r := Reserve(env, s, free + 2);
    assert Snap(proc, ip) == r;
    ghost var words := Closure(s, entry, free);
    WriteClosure(proc, hp, entry, free, s, r.heap);
    if dst < NUM_X_REGISTERS {
      proc.x[dst] := Boxed(proc.base + hp);
    }
  }

  /** The switch on one instruction. */
  method DoStep(env: Env, proc: Process, ip: nat) returns (ip': nat, exit: Option<Exit>)
    requires Ready(proc) && WfCode(env.code) && ip < |env.code|
    modifies proc`heap, proc`base, proc`heapTop, proc`stackTop, proc`cp, proc`catches, proc`mailbox, proc`outbox,
             proc.heap, proc.x
    ensures proc.heap == old(proc.heap) || fresh(proc.heap)
    ensures Did(Step(env, old(Snap(proc, ip))), proc, ip', exit)
  {
    hide StepArith, StepStack, StepMessage, StepCatch, StepTerm, MakeClosure;
    var i := env.code[ip];
    ip', exit := ip + 1, None;
    if i.Label? {
    } else if i.Move? {
      if i.dst < NUM_X_REGISTERS {
        proc.x[i.dst] := i.literal;
      }
    } else if i.Add? || i.Sub? || i.Mul? || i.IntDiv? {
      ip', exit := DoArith(i, proc, ip);
    } else if i.Allocate? || i.Deallocate? || i.Call? || i.CallLast? || i.Return? {
      ip', exit := DoStack(i, proc, ip);
    } else if i.Send? || i.LoopRec? || i.LoopRecEnd? || i.RemoveMessage? || i.Wait? {
      ip', exit := DoMessage(env, i, proc, ip);
    } else if i.Try? || i.TryCase? || i.TryEnd? || i.Raise? {
      ip', exit := DoCatch(env, i, proc, ip);
    } else if i.CallExt? {
      var (status, t) := env.bif(i.bif, i.argc, Snap(proc, ip));
      if status == Ok {
        proc.x[0] := t;
      } else {
        ip', exit := ip, Some(Exit(None, status, None));
      }
    } else if i.MakeFun2? {
      DoMakeFun(env, i.entry, i.free, i.dst, proc, ip);
    } else if i.HaltOp? {
      ip', exit := ip, Some(Exit(Some(Exited), Halt, Some(proc.x[0])));
    } else if i.Unknown? {
      ip', exit := ip, Some(Exit(None, BadArg, None));
    } else if i.GetTupleElement? || i.GetList? {
      ip', exit := DoLoad(env, i, proc, ip);
    } else if i.MatchTuple? || i.TestIsTuple? || i.SelectVal? {
      ip', exit := DoTest(env, i, proc, ip);
    } else {
      ip', exit := DoCompare(env, i, proc, ip);
    }
  }

  /** The dispatch loop, from the local instruction pointer `start` to one of its returns. */
  method Loop(env: Env, proc: Process, start: nat) returns (kind: EndKind, ip: nat, exit: Exit)
    requires Ready(proc) && WfCode(env.code)
    modifies proc`reductions, proc`heap, proc`base, proc`heapTop, proc`stackTop, proc`cp, proc`catches,
             proc`mailbox, proc`outbox, proc.heap, proc.x
    ensures Ready(proc)
    ensures var e := Run(env, old(Snap(proc, start)), old(proc.reductions));
            && Snap(proc, ip) == e.s && kind == e.kind && exit == Exit(e.state, e.res, e.out)
            && proc.reductions == old(proc.reductions) - e.steps - (if kind.Preempted? then 1 else 0)
  {
    hide Run, Step;
    ghost var first, budget, done := Snap(proc, start), proc.reductions, 0;
    ip := start;
    while ip < |env.code|
      invariant Ready(proc) && (proc.heap == old(proc.heap) || fresh(proc.heap))
      invariant proc.reductions == budget - done
      invariant Run(env, first, budget)
             == Run(env, Snap(proc, ip), proc.reductions).(steps := done + Run(env, Snap(proc, ip), proc.reductions).steps)
      decreases if proc.reductions > 0 then proc.reductions else 0
    {
      RunOnce(env, Snap(proc, ip), proc.reductions);
      proc.reductions := proc.reductions - 1;
      if proc.reductions <= 0 {
        return Preempted, ip, Exit(Some(Runnable), Ok, None);
      }
      var stop;
      ip, stop := DoStep(env, proc, ip);
      done := done + 1;
      if stop.Some? {
        return if stop.value.state == Some(Waiting) then Waited else Stopped, ip, stop.value;
      }
    }
    RunOnce(env, Snap(proc, ip), proc.reductions);
    return Finished, ip, Exit(None, Ok, Some(proc.x[0]));
  }

  /** One call of the interpreter.  What the caller finds in the record is the slice as
      `EmuSlices` defines it, with the instruction pointer stored where the source stores it. */
  method ExecuteCode(env: Env, proc: Process) returns (res: Status, out: Option<Term>)
    requires Ready(proc) && WfCode(env.code)
    modifies proc, proc.heap, proc.x
    ensures Ready(proc)
    ensures var e := Execute(env, old(Snap(proc, proc.ip)), old(proc.reductions), false);
            && Snap(proc, proc.ip) == e.s
            && res == e.res && out == e.out
            && proc.state == (if e.state.Some? then e.state.value else old(proc.state))
            && proc.reductions == old(proc.reductions) - e.steps - (if e.kind.Preempted? then 1 else 0)
  {
    hide Run, WfCode;
    ghost var s := Snap(proc, proc.ip);
    EnterKeeps(env, s);
    if proc.cp == 0 && proc.ip == 0 {
      proc.cp := |env.code|;
    }
    assert Snap(proc, proc.ip) == Enter(env, s);
    hide Enter;
    var kind, ip, exit := Loop(env, proc, proc.ip);
    if kind.Finished? || kind.Waited? {
      proc.ip := ip;
    }
    if exit.state.Some? {
      proc.state := exit.state.value;
    }
    return exit.res, exit.out;
  }

  /** One unfolding of the loop. */
  lemma RunOnce(env: Env, s: State, r: int)
    requires WfCode(env.code) && WfState(s)
    ensures var e := Run(env, s, r);
            if s.ip >= |env.code| then e == End(Finished, s, None, Ok, Some(s.x[0]), 0)
            else if r <= 1 then e == End(Preempted, s, Some(Runnable), Ok, None, 0)
            else
              && WfState(Step(env, s).s)
              && match Step(env, s)
                 case Next(s') => e == Run(env, s', r - 1).(steps := Run(env, s', r - 1).steps + 1)
                 case Stop(s', state, res, out) =>
                   e == End(if state == Some(Waiting) then Waited else Stopped, s', state, res, out, 1)
  {
    hide Step;
    if s.ip < |env.code| {
      StepWf(env, s);
    }
  }
}
