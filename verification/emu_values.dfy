/** What the interpreter's term instructions do to values: tests, element access, closures and
    exact comparison on the trees the registers denote. */
module EmuValues {
  import opened BeamCore
  import opened HeapValues
  import opened ErlProcess
  import opened HeapRuns
  import opened BeamEmu

  function LiveHeap(s: State): Space
    requires WfState(s)
  {
    Space(s.base, s.heap[..s.heapTop])
  }

  /** Every register denotes the value of the same index. */
  ghost predicate Reads(s: State, vs: seq<Value>) {
    WfState(s) && RepresentsAll(LiveHeap(s), s.x, vs)
  }

  predicate IsTupleValue(v: Value) {
    v.Block? && v.kind.TupleKind?
  }

  predicate IsListValue(v: Value) {
    v.Block? && v.kind.ListKind? && |v.kids| == 2
  }

  lemma LiveWord(env: Env, s: State, addr: nat)
    requires WfState(s) && s.base <= addr < s.base + s.heapTop
    ensures Deref(env, s, addr) == LiveHeap(s).words[addr - s.base]
  {
  }

  lemma BlockParts(m: Space, t: Term, v: Value)
    requires Represents(m, t, v)
    ensures if v.Block? then HasBlock(m, t) && KindOf(t) == v.kind && RepresentsAll(m, Fields(m, t), v.kids)
            else t == v.term && IsImmediate(t)
  {
  }

  /** The raw tuple test and arity of a register are those of its value. */
  lemma TupleTest(env: Env, s: State, vs: seq<Value>, r: nat)
    requires Reads(s, vs) && IsX(r)
    ensures TupleAt(env, s, s.x[r]) <==> IsTupleValue(vs[r])
    ensures IsTupleValue(vs[r]) ==> TupleArity(env, s, s.x[r]) == |vs[r].kids|
    ensures s.x[r].List? <==> IsListValue(vs[r])
    ensures s.x[r].Nil? <==> vs[r] == Imm(Nil)
  {
    hide Represents;
    var t := s.x[r];
    BlockParts(LiveHeap(s), t, vs[r]);
    if vs[r].Block? {
      assert |Fields(LiveHeap(s), t)| == |vs[r].kids|;
      LiveWord(env, s, t.addr);
    }
  }

  /** The raw element read is the element of the value. */
  lemma ElementRead(env: Env, s: State, vs: seq<Value>, r: nat, k: nat)
    requires Reads(s, vs) && IsX(r) && vs[r].Block? && k < |vs[r].kids|
    ensures (s.x[r].Boxed? || s.x[r].List?)
    ensures var t := Deref(env, s, s.x[r].addr + HeaderLen(vs[r].kind) + k);
            Represents(LiveHeap(s), t, vs[r].kids[k])
  {
    hide Represents;
    var m, t := LiveHeap(s), s.x[r];
    BlockParts(m, t, vs[r]);
    assert |Fields(m, t)| == |vs[r].kids| && Represents(m, Fields(m, t)[k], vs[r].kids[k]);
    var at := t.addr + HeaderLen(vs[r].kind) + k;
    assert Fields(m, t)[k] == m.words[at - m.base];
    LiveWord(env, s, at);
  }

  lemma RegisterSet(s: State, vs: seq<Value>, dst: nat, t: Term, v: Value)
    requires Reads(s, vs) && IsX(dst) && Represents(LiveHeap(s), t, v)
    ensures Reads(SetX(s, dst, t), vs[dst := v])
  {
    hide Represents;
  }

  /** The tests decide by the value: a test instruction falls through exactly for the values it
      is named after and changes nothing. */
  lemma TestsDecideByValue(env: Env, s: State, vs: seq<Value>, i: Instr)
    requires Reads(s, vs) && WfInstr(i)
    ensures i.MatchTuple? && IsX(i.src) ==>
              StepTerm(env, i, s) == if IsTupleValue(vs[i.src]) && |vs[i.src].kids| == i.arity then Then(s) else Halted(s, BadArg)
    ensures i.TestIsTuple? ==>
              StepTerm(env, i, s) == if IsTupleValue(vs[i.r1]) then Then(s) else Next(Jump(env, s, i.fail))
    ensures i.TestIsList? ==>
              StepTerm(env, i, s)
              == if IsListValue(vs[i.r1]) || vs[i.r1] == Imm(Nil) then Then(s) else Next(Jump(env, s, i.fail))
  {
    hide Represents, RepresentsAll, TupleAt, TupleArity, Jump;
    assert |s.x| == |vs| by {
      RegisterCount(s, vs);
    }
    if i.MatchTuple? && IsX(i.src) {
      TupleTest(env, s, vs, i.src);
    } else if i.TestIsTuple? || i.TestIsList? {
      TupleTest(env, s, vs, i.r1);
    }
  }

  lemma RegisterCount(s: State, vs: seq<Value>)
    requires Reads(s, vs)
    ensures WfState(s) && |vs| == |s.x| == NUM_X_REGISTERS
  {
  }

  /** GET_TUPLE_ELEMENT loads the element of a tuple, zero from anything else; an index past the
      arity is not noticed and loads whatever word stands there. */
  lemma ElementLoaded(env: Env, s: State, vs: seq<Value>, src: nat, index: nat, dst: nat)
    requires Reads(s, vs) && IsX(src) && IsX(dst)
    ensures |vs| == NUM_X_REGISTERS
    ensures var o := StepTerm(env, GetTupleElement(src, index, dst), s);
            if IsTupleValue(vs[src]) && index >= |vs[src].kids| then
              s.x[src].Boxed? && o == Then(SetX(s, dst, Deref(env, s, s.x[src].addr + 1 + index)))
            else
              var v := if IsTupleValue(vs[src]) then vs[src].kids[index] else Imm(Raw(0));
              o.Next? && o.s.ip == s.ip + 1 && Reads(o.s, vs[dst := v])
  {
    RegisterCount(s, vs);
    TupleTest(env, s, vs, src);
    if !(IsTupleValue(vs[src]) && index >= |vs[src].kids|) {
      var t := Raw(0);
      var v := Imm(Raw(0));
      if IsTupleValue(vs[src]) {
        ElementRead(env, s, vs, src, index);
        t, v := Deref(env, s, s.x[src].addr + 1 + index), vs[src].kids[index];
      }
      hide Reads, TupleAt, Deref, TupleArity;
      RegisterSet(s, vs, dst, t, v);
      IpMoved(SetX(s, dst, t), vs[dst := v], s.ip + 1);
    }
  }

  /** GET_LIST loads head and tail of a list cell and fails on anything else. */
  lemma ListLoaded(env: Env, s: State, vs: seq<Value>, src: nat, head: nat, tail: nat)
    requires Reads(s, vs) && IsX(src) && IsX(head) && IsX(tail)
    ensures var o := StepTerm(env, GetList(src, head, tail), s);
            if IsListValue(vs[src]) then
              o.Next? && o.s.ip == s.ip + 1 && Reads(o.s, vs[head := vs[src].kids[0]][tail := vs[src].kids[1]])
            else o == Halted(s, BadArg)
  {
    hide Reads, TupleAt, Deref, TupleArity, Represents;
    RegisterCount(s, vs);
    TupleTest(env, s, vs, src);
    if IsListValue(vs[src]) {
      ElementRead(env, s, vs, src, 0);
      ElementRead(env, s, vs, src, 1);
      var h, t := Deref(env, s, s.x[src].addr), Deref(env, s, s.x[src].addr + 1);
      RegisterSet(s, vs, head, h, vs[src].kids[0]);
      RegisterSet(SetX(s, head, h), vs[head := vs[src].kids[0]], tail, t, vs[src].kids[1]);
      IpMoved(SetX(SetX(s, head, h), tail, t), vs[head := vs[src].kids[0]][tail := vs[src].kids[1]], s.ip + 1);
    }
  }

  lemma IpMoved(s: State, vs: seq<Value>, ip: nat)
    requires Reads(s, vs)
    ensures Reads(s.(ip := ip), vs)
  {
  }

  /** The allocator can leave the heap where it is. */
  predicate StaysPut(env: Env, s: State, n: nat) {
    s.heapTop + n <= |s.heap| || env.regrow(s.base) == s.base
  }

  /** MAKE_FUN2 builds the tuple of its entry and the registers it captures, and no register
      changes its value but the target, whenever the heap stays in place, even when the closure
      runs into the stack; below the stack it leaves every stack word alone. */
  lemma ClosureBuilt(env: Env, s: State, vs: seq<Value>, entry: nat, free: nat, dst: nat)
    requires Reads(s, vs) && IsX(dst) && StaysPut(env, s, free + 2)
    ensures |vs| == NUM_X_REGISTERS
    ensures Reads(MakeClosure(env, s, entry, free, dst),
                  vs[dst := Block(TupleKind, [Imm(MakeSmall(entry))] + Captured(vs, Imm(Raw(0)), free))])
    ensures s.heapTop + free + 2 <= s.stackTop ==>
              MakeClosure(env, s, entry, free, dst).heap[s.stackTop..] == s.heap[s.stackTop..]
  {
    hide Represents, Captured, Appended, Closure, MakeClosure, Reads;
    RegisterCount(s, vs);
    var m := LiveHeap(s);
    var refs := [MakeSmall(entry)] + Captured(s.x, Raw(0), free);
    var kids := [Imm(MakeSmall(entry))] + Captured(vs, Imm(Raw(0)), free);
    RegistersRepresent(s, vs);
    CapturedRepresent(m, s.x, vs, entry, free);
    ClosureAppends(env, s, entry, free, dst);
    AppendedBlock(m, TupleKind, refs, kids);
    RepresentsAllExtends(m, Appended(m, TupleKind, refs), s.x, vs);
    OneRegisterSet(s, vs, MakeClosure(env, s, entry, free, dst), dst, Block(TupleKind, kids));
  }

  lemma RegistersRepresent(s: State, vs: seq<Value>)
    requires Reads(s, vs)
    ensures RepresentsAll(LiveHeap(s), s.x, vs)
  {
  }

  lemma OneRegisterSet(s: State, vs: seq<Value>, s': State, dst: nat, v: Value)
    requires WfState(s) && WfState(s') && IsX(dst)
    requires RepresentsAll(LiveHeap(s'), s.x, vs) && s'.x == s.x[dst := s'.x[dst]]
    requires Represents(LiveHeap(s'), s'.x[dst], v)
    ensures |vs| == NUM_X_REGISTERS && Reads(s', vs[dst := v])
  {
    hide Represents;
  }

  lemma CapturedRepresent(m: Space, x: seq<Term>, vs: seq<Value>, entry: nat, free: nat)
    requires RepresentsAll(m, x, vs)
    ensures RepresentsAll(m, [MakeSmall(entry)] + Captured(x, Raw(0), free),
                          [Imm(MakeSmall(entry))] + Captured(vs, Imm(Raw(0)), free))
  {
    assert Represents(m, MakeSmall(entry), Imm(MakeSmall(entry))) && Represents(m, Raw(0), Imm(Raw(0)));
    hide Represents, MakeSmall;
    var ts, us := Captured(x, Raw(0), free), Captured(vs, Imm(Raw(0)), free);
    assert RepresentsAll(m, ts, us);
    var refs, kids := [MakeSmall(entry)] + ts, [Imm(MakeSmall(entry))] + us;
    forall k | 0 <= k < |kids| ensures Represents(m, refs[k], kids[k]) {
      if k > 0 {
        assert refs[k] == ts[k - 1] && kids[k] == us[k - 1];
      }
    }
  }

  lemma ClosureAppends(env: Env, s: State, entry: nat, free: nat, dst: nat)
    requires WfState(s) && IsX(dst) && StaysPut(env, s, free + 2)
    ensures var s' := MakeClosure(env, s, entry, free, dst);
            && s'.base == s.base && s'.x == s.x[dst := Boxed(s.base + s.heapTop)]
            && LiveHeap(s') == Appended(LiveHeap(s), TupleKind, [MakeSmall(entry)] + Captured(s.x, Raw(0), free))
            && (s.heapTop + free + 2 <= s.stackTop ==> s'.heap[s.stackTop..] == s.heap[s.stackTop..])
  {
    var refs := [MakeSmall(entry)] + Captured(s.x, Raw(0), free);
    var words := Closure(s, entry, free);
    assert words == [Header(free + 1)] + refs;
    var r := Reserve(env, s, free + 2);
    assert r.heap[..s.heapTop] == s.heap[..s.heapTop];
    hide Closure, Captured;
    var heap' := r.heap[..s.heapTop] + words + r.heap[s.heapTop + free + 2..];
    assert heap'[..s.heapTop + free + 2] == r.heap[..s.heapTop] + words;
    if s.heapTop + free + 2 <= s.stackTop {
      assert heap'[s.stackTop..] == s.heap[s.stackTop..];
    }
  }

  /** Exact comparison is comparison of words: it finds equal exactly the equal values that are
      immediate or stand at one address.  Two tuples alike at different addresses differ. */
  lemma ExactComparison(m: Space, t: Term, u: Term, v: Value, w: Value)
    requires Represents(m, t, v) && Represents(m, u, w) && Canonical(t) && Canonical(u)
    ensures Pack(t) == Pack(u) <==> v == w && (v.Imm? || t.addr == u.addr)
  {
    PackInjective(t, u);
    if t == u {
      RepresentsUnique(m, t, v, w);
    }
  }

  /** The smallest such pair. */
  lemma EqualTuplesDiffer(base: Address)
    ensures var m := Space(base, [Header(1), Small(5), Header(1), Small(5)]);
            var v := Block(TupleKind, [Imm(Small(5))]);
            && Represents(m, Boxed(base), v) && Represents(m, Boxed(base + 2), v)
            && Pack(Boxed(base)) != Pack(Boxed(base + 2))
  {
    var m := Space(base, [Header(1), Small(5), Header(1), Small(5)]);
    assert Fields(m, Boxed(base)) == [Small(5)] && Fields(m, Boxed(base + 2)) == [Small(5)];
    assert Represents(m, Small(5), Imm(Small(5)));
  }

  /** Integer division rounds toward zero: the remainder is smaller than the divisor and has
      the sign of the dividend. */
  lemma DividesTowardZero(a: int, b: int)
    requires b != 0
    ensures var r := a - TruncDiv(a, b) * b;
            -(if b > 0 then b else -b) < r < (if b > 0 then b else -b) && (r > 0 ==> a > 0) && (r < 0 ==> a < 0)
  {
    var m: nat, d: nat := if a >= 0 then a else -a, if b > 0 then b else -b;
    var q := m / d;
    assert m == d * q + m % d;
    assert TruncDiv(a, b) == if (a >= 0) == (b > 0) then q else -q;
    hide TruncDiv;
    SignedProduct(q, b, d * q);
  }

  lemma SignedProduct(q: int, b: int, p: int)
    requires p == (if b > 0 then b else -b) * q
    ensures q * b == (if b > 0 then p else -p) && -q * b == (if b > 0 then -p else p)
  {
    if b <= 0 {
      assert -b * q == -(b * q);
    }
  }

  /** Arithmetic on registers is arithmetic on integers modulo 2^60, and it fails exactly when
      it divides by zero. */
  lemma ArithmeticExact(i: Instr, s: State)
    requires WfState(s) && (i.Add? || i.Sub? || i.Mul? || i.IntDiv?) && IsX(i.r1) && IsX(i.r2) && IsX(i.dst)
    ensures var a, b, o := SmallOf(s.x[i.r1]), SmallOf(s.x[i.r2]), StepArith(i, s);
            && (o.Stop? <==> i.IntDiv? && b == 0)
            && (o.Stop? ==> o == Halted(s, BadArg))
            && (o.Next? ==>
                  var v := o.s.x[i.dst];
                  && v.Small? && o.s == s.(x := s.x[i.dst := v], ip := s.ip + 1)
                  && SmallOf(v) == Wrap60(match i case Add(_, _, _) => a + b
                                                  case Sub(_, _, _) => a - b
                                                  case Mul(_, _, _) => a * b
                                                  case _ => TruncDiv(a, b)))
  {
    var a, b := SmallOf(s.x[i.r1]), SmallOf(s.x[i.r2]);
    if !(i.IntDiv? && b == 0) {
      SmallRoundTrip(Arith(i, a, b).value);
    }
    hide SmallOf, Wrap60, TruncDiv;
  }
}
