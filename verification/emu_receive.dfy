/** A receive loop as the interpreter runs it: the bytecode of selective receive. */
module EmuReceive {
  import opened BeamCore
  import opened MailboxModel
  import opened BeamEmu
  import opened EmuCalls

  /** A loop at `start` that takes the first message equal to register `key` into register
      `dst`: label, LOOP_REC, a test that goes to `skip` on any other message, REMOVE_MESSAGE;
      at `skip` a label and LOOP_REC_END back to the start. */
  datatype Loop = Loop(start: nat, skip: nat, again: nat, other: nat, fail: nat, dst: nat, key: nat)

  predicate Receives(code: seq<Instr>, p: Loop) {
    && p.start + 4 < |code| && p.skip + 1 < |code|
    && code[p.start] == Label(p.again) && code[p.start + 1] == LoopRec(p.fail, p.dst)
    && code[p.start + 2] == TestIsEqExact(p.other, p.dst, p.key) && code[p.start + 3] == RemoveMessage
    && code[p.skip] == Label(p.other) && code[p.skip + 1] == LoopRecEnd(p.again)
    && FindLabel(code, p.again, 0) == Some(p.start) && FindLabel(code, p.other, 0) == Some(p.skip)
    && IsX(p.dst) && IsX(p.key) && p.dst != p.key
  }

  predicate Wanted(s: State, p: Loop, t: Term)
    requires WfState(s) && IsX(p.key)
  {
    Pack(t) == Pack(s.x[p.key])
  }

  /** The state with the message at the cursor in the target register. */
  function Looked(s: State, p: Loop, c: nat, ip: nat): State
    requires WfState(s) && IsX(p.dst) && c < |s.mbox.queue|
  {
    SetX(s, p.dst, s.mbox.queue[c]).(ip := ip, mbox := Mbox(s.mbox.queue, Some(c)))
  }

  lemma StepLoopRec(env: Env, u: State, fail: nat, dst: nat, c: nat)
    requires WfCode(env.code) && WfState(u) && u.ip < |env.code| && env.code[u.ip] == LoopRec(fail, dst) && IsX(dst)
    requires Peek(u.mbox).cursor == Some(c)
    ensures c < |u.mbox.queue|
    ensures StepsTo(env, u, SetX(u, dst, u.mbox.queue[c]).(ip := u.ip + 1, mbox := Mbox(u.mbox.queue, Some(c))))
  {
    StepWf(env, u);
    hide FindLabel;
  }

  lemma StepTest(env: Env, u: State, fail: nat, r1: nat, r2: nat)
    requires WfCode(env.code) && WfState(u) && u.ip < |env.code| && env.code[u.ip] == TestIsEqExact(fail, r1, r2)
    ensures IsX(r1) && IsX(r2)
    ensures StepsTo(env, u, if Pack(u.x[r1]) == Pack(u.x[r2]) then u.(ip := u.ip + 1) else Jump(env, u, fail))
  {
    StepWf(env, u);
    hide FindLabel, Pack, Jump;
  }

  lemma StepRemove(env: Env, u: State)
    requires WfCode(env.code) && WfState(u) && u.ip < |env.code| && env.code[u.ip] == RemoveMessage
    ensures StepsTo(env, u, u.(ip := u.ip + 1, mbox := RemoveCurrent(u.mbox)))
  {
    StepWf(env, u);
    hide FindLabel, RemoveCurrent;
  }

  lemma StepLoopRecEnd(env: Env, u: State, loop: nat)
    requires WfCode(env.code) && WfState(u) && u.ip < |env.code| && env.code[u.ip] == LoopRecEnd(loop)
    ensures StepsTo(env, u, Jump(env, u.(mbox := Advance(u.mbox)), loop))
  {
    StepWf(env, u);
    hide FindLabel, Advance, Jump;
  }

  lemma LookedWf(s: State, p: Loop, c: nat, ip: nat)
    requires WfState(s) && IsX(p.dst) && IsX(p.key) && p.dst != p.key && c < |s.mbox.queue|
    ensures var u := Looked(s, p, c, ip);
            && WfState(u) && u.ip == ip && u.mbox == Mbox(s.mbox.queue, Some(c))
            && u.x[p.key] == s.x[p.key] && u.x[p.dst] == s.mbox.queue[c]
            && forall k: nat {:trigger Looked(s, p, c, k)} :: u.(ip := k) == Looked(s, p, c, k)
  {
  }

  lemma RemovedIsReceived(s: State, p: Loop, c: nat)
    requires WfState(s) && IsX(p.dst) && c < |s.mbox.queue|
    ensures Looked(s, p, c, p.start + 3).(ip := p.start + 4, mbox := RemoveCurrent(Mbox(s.mbox.queue, Some(c)))) == Received(s, p, c)
  {
  }

  /** Label and LOOP_REC. */
  lemma LooksAtMessage(env: Env, s: State, p: Loop, c: nat)
    requires WfCode(env.code) && WfState(s) && Receives(env.code, p) && s.ip == p.start
    requires Peek(s.mbox).cursor == Some(c)
    ensures c < |s.mbox.queue|
    ensures var s1 := s.(ip := p.start + 1);
            StepsTo(env, s, s1) && StepsTo(env, s1, Looked(s, p, c, p.start + 2))
  {
    hide Step, StepsTo, FindLabel, WfInstr;
    StepLabel(env, s, p.again);
    StepsToWf(env, s, s.(ip := s.ip + 1));
    StepLoopRec(env, s.(ip := s.ip + 1), p.fail, p.dst, c);
  }

  /** The test falls through for a wanted message and skips any other. */
  lemma TestDecides(env: Env, s: State, p: Loop, c: nat)
    requires WfCode(env.code) && WfState(s) && Receives(env.code, p) && c < |s.mbox.queue|
    ensures StepsTo(env, Looked(s, p, c, p.start + 2),
                    Looked(s, p, c, if Wanted(s, p, s.mbox.queue[c]) then p.start + 3 else p.skip))
  {
    hide Step, StepsTo, FindLabel, WfInstr, Pack, WfState, Looked;
    LookedWf(s, p, c, p.start + 2);
    var u := Looked(s, p, c, p.start + 2);
    StepTest(env, u, p.other, p.dst, p.key);
    assert Jump(env, u, p.other) == u.(ip := p.skip);
    assert u.(ip := p.start + 3) == Looked(s, p, c, p.start + 3) && u.(ip := p.skip) == Looked(s, p, c, p.skip);
  }

  lemma RemovesMessage(env: Env, s: State, p: Loop, c: nat)
    requires WfCode(env.code) && WfState(s) && Receives(env.code, p) && c < |s.mbox.queue|
    ensures StepsTo(env, Looked(s, p, c, p.start + 3), Received(s, p, c))
  {
    hide Step, StepsTo, FindLabel, WfInstr, WfState, Looked, Received, RemoveCurrent;
    LookedWf(s, p, c, p.start + 3);
    RemovedIsReceived(s, p, c);
    StepRemove(env, Looked(s, p, c, p.start + 3));
  }

  /** Four instructions take a wanted message. */
  lemma TakesMessage(env: Env, s: State, p: Loop, c: nat)
    requires WfCode(env.code) && WfState(s) && Receives(env.code, p) && s.ip == p.start
    requires Peek(s.mbox).cursor == Some(c) && c < |s.mbox.queue| && Wanted(s, p, s.mbox.queue[c])
    ensures Goes(env, s, 4)
    ensures After(env, s, 4) == Received(s, p, c)
  {
    hide Step, Goes, After, StepsTo, Wanted, Received, Looked, FindLabel;
    LooksAtMessage(env, s, p, c);
    TestDecides(env, s, p, c);
    RemovesMessage(env, s, p, c);
    var s2, s3, s4 := Looked(s, p, c, p.start + 2), Looked(s, p, c, p.start + 3), Received(s, p, c);
    StepsToWf(env, s3, s4);
    NoneLeft(env, s4);
    FourSteps(env, s, s.(ip := p.start + 1), s2, s3, s4, 0);
  }

  function PassedOver(s: State, p: Loop, c: nat): State
    requires WfState(s) && IsX(p.dst) && c < |s.mbox.queue|
  {
    Looked(s, p, c, p.start).(mbox := Advance(Mbox(s.mbox.queue, Some(c))))
  }

  /** What passing over a message leaves for the next turn. */
  lemma NextTurn(code: seq<Instr>, s: State, p: Loop, c: nat)
    requires WfState(s) && Receives(code, p) && c < |s.mbox.queue|
    ensures IsX(p.dst) && IsX(p.key)
    ensures var t := PassedOver(s, p, c);
            && WfState(t) && t.ip == p.start && t.mbox.queue == s.mbox.queue
            && (c + 1 < |s.mbox.queue| ==> Peek(t.mbox).cursor == Some(c + 1))
            && (forall m :: Wanted(t, p, m) <==> Wanted(s, p, m))
            && (forall i :: 0 <= i < |s.mbox.queue| ==> Received(t, p, i) == Received(s, p, i))
  {
    hide Pack, FindLabel;
    var t := PassedOver(s, p, c);
    assert t.x[p.key] == s.x[p.key];
    forall i | 0 <= i < |s.mbox.queue| ensures Received(t, p, i) == Received(s, p, i) {
      assert t.x[p.dst := s.mbox.queue[i]] == s.x[p.dst := s.mbox.queue[i]];
    }
  }

  /** The state that has taken message `i`. */
  function Received(s: State, p: Loop, i: nat): State
    requires WfState(s) && IsX(p.dst) && i < |s.mbox.queue|
  {
    SetX(s, p.dst, s.mbox.queue[i]).(ip := p.start + 4,
      mbox := Mbox(Without(s.mbox.queue, i), if i + 1 < |s.mbox.queue| then Some(i) else None))
  }

  lemma LoopsBack(env: Env, s: State, p: Loop, c: nat)
    requires WfCode(env.code) && WfState(s) && Receives(env.code, p) && c < |s.mbox.queue|
    ensures StepsTo(env, Looked(s, p, c, p.skip), Looked(s, p, c, p.skip + 1))
    ensures StepsTo(env, Looked(s, p, c, p.skip + 1), PassedOver(s, p, c))
  {
    hide Step, StepsTo, FindLabel, WfInstr;
    LookedWf(s, p, c, p.skip);
    LookedWf(s, p, c, p.skip + 1);
    StepLabel(env, Looked(s, p, c, p.skip), p.other);
    StepLoopRecEnd(env, Looked(s, p, c, p.skip + 1), p.again);
  }

  /** Five instructions pass over any other message. */
  lemma SkipsMessage(env: Env, s: State, p: Loop, c: nat, k: nat)
    requires WfCode(env.code) && WfState(s) && Receives(env.code, p) && s.ip == p.start
    requires Peek(s.mbox).cursor == Some(c) && c < |s.mbox.queue| && !Wanted(s, p, s.mbox.queue[c])
    requires WfState(PassedOver(s, p, c)) && Goes(env, PassedOver(s, p, c), k)
    ensures Goes(env, s, k + 5) && After(env, s, k + 5) == After(env, PassedOver(s, p, c), k)
  {
    LooksAtMessage(env, s, p, c);
    TestDecides(env, s, p, c);
    LoopsBack(env, s, p, c);
    hide FindLabel, Goes, After, StepsTo, Wanted, PassedOver, Looked, Receives;
    var s1, s2 := s.(ip := p.start + 1), Looked(s, p, c, p.start + 2);
    var s4 := Looked(s, p, c, p.skip + 1);
    assert WfState(s4) by {
      StepsToWf(env, s4, PassedOver(s, p, c));
    }
    GoesOn(env, s4, PassedOver(s, p, c), k);
    FourSteps(env, s, s1, s2, Looked(s, p, c, p.skip), s4, k + 1);
  }

  /** With the cursor at `c` and the first wanted message at `i`, the loop runs for exactly
      5(i-c)+4 instructions, leaves that message in its register and the mailbox without it,
      the others in order, and touches nothing else. */
  lemma {:induction false} ReceiveProgram(env: Env, s: State, p: Loop, c: nat, i: nat, n: nat)
    requires WfCode(env.code) && WfState(s) && Receives(env.code, p) && s.ip == p.start
    requires Peek(s.mbox).cursor == Some(c) && c <= i < |s.mbox.queue| && n == 5 * (i - c) + 4
    requires Wanted(s, p, s.mbox.queue[i]) && forall j :: c <= j < i ==> !Wanted(s, p, s.mbox.queue[j])
    ensures Goes(env, s, n) && After(env, s, n) == Received(s, p, i)
    decreases i - c
  {
    hide *;
    if c == i {
      TakesMessage(env, s, p, c);
    } else {
      NextTurn(env.code, s, p, c);
      ReceiveProgram(env, PassedOver(s, p, c), p, c + 1, i, n - 5);
      SkipsMessage(env, s, p, c, n - 5);
    }
  }

  /** With messages but none wanted the loop never leaves itself: after any number of turns it
      is back at its start with the mailbox as it was. */
  lemma {:induction false} ReceiveSpins(env: Env, s: State, p: Loop, n: nat)
    requires WfCode(env.code) && WfState(s) && Receives(env.code, p) && s.ip == p.start
    requires s.mbox.queue != [] && forall j :: 0 <= j < |s.mbox.queue| ==> !Wanted(s, p, s.mbox.queue[j])
    ensures Goes(env, s, 5 * n)
    ensures After(env, s, 5 * n).ip == p.start && After(env, s, 5 * n).mbox.queue == s.mbox.queue
    decreases n
  {
    hide FindLabel, Goes, After, Pack;
    if n == 0 {
      NoneLeft(env, s);
    } else {
      var c := Peek(s.mbox).cursor.value;
      var t := PassedOver(s, p, c);
      NextTurn(env.code, s, p, c);
      hide PassedOver, WfState, Receives, Wanted;
      ReceiveSpins(env, t, p, n - 1);
      SkipsMessage(env, s, p, c, 5 * (n - 1));
      assert 5 * (n - 1) + 5 == 5 * n;
    }
  }

  /** The state after SEND of register `reg` to the process itself. */
  function SentToSelf(s: State, reg: nat): State
    requires WfState(s) && IsX(reg)
  {
    s.(ip := s.ip + 1, mbox := Enqueue(s.mbox, s.x[reg]))
  }

  lemma StepSend(env: Env, s: State, reg: nat)
    requires WfCode(env.code) && WfState(s) && s.ip < |env.code| && env.code[s.ip] == Send(reg, Some(s.pid)) && IsX(reg)
    ensures StepsTo(env, s, SentToSelf(s, reg))
  {
    StepWf(env, s);
    hide Enqueue;
  }

  /** A process that sends itself a wanted message and then receives gets that message behind
      everything it passes over, and has the mailbox it started with. */
  lemma SelfSendReceived(env: Env, s: State, p: Loop, reg: nat, c: nat)
    requires WfCode(env.code) && WfState(s) && Receives(env.code, p) && s.ip < |env.code|
    requires env.code[s.ip] == Send(reg, Some(s.pid)) && IsX(reg) && s.ip + 1 == p.start
    requires Peek(Enqueue(s.mbox, s.x[reg])).cursor == Some(c) && c <= |s.mbox.queue|
    requires Wanted(s, p, s.x[reg]) && forall j :: c <= j < |s.mbox.queue| ==> !Wanted(s, p, s.mbox.queue[j])
    ensures var n := 5 * (|s.mbox.queue| - c) + 5;
            Goes(env, s, n) && After(env, s, n) == SetX(s, p.dst, s.x[reg]).(ip := p.start + 4, mbox := Mbox(s.mbox.queue, None))
  {
    hide Step, Goes, After, FindLabel, Pack, StepsTo, WfState, SentToSelf, Received, Wanted;
    StepSend(env, s, reg);
    var t := SentToSelf(s, reg);
    StepsToWf(env, s, t);
    SentFacts(s, p, reg);
    ReceiveProgram(env, t, p, c, |s.mbox.queue|, 5 * (|s.mbox.queue| - c) + 4);
    GoesOn(env, s, t, 5 * (|s.mbox.queue| - c) + 4);
  }

  lemma SentFacts(s: State, p: Loop, reg: nat)
    requires WfState(s) && IsX(p.dst) && IsX(p.key) && IsX(reg)
    ensures var t, i := SentToSelf(s, reg), |s.mbox.queue|;
            && WfState(t) && t.ip == s.ip + 1 && t.mbox == Enqueue(s.mbox, s.x[reg]) && |t.mbox.queue| == i + 1
            && t.mbox.queue[i] == s.x[reg]
            && (forall j :: 0 <= j < i ==> t.mbox.queue[j] == s.mbox.queue[j])
            && (forall m :: Wanted(t, p, m) <==> Wanted(s, p, m))
            && Received(t, p, i) == SetX(s, p.dst, s.x[reg]).(ip := p.start + 4, mbox := Mbox(s.mbox.queue, None))
  {
    hide Pack;
    var t, i := SentToSelf(s, reg), |s.mbox.queue|;
    assert Without(t.mbox.queue, i) == s.mbox.queue;
  }
}
