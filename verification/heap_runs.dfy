/** Whole runs that build terms, take them apart, push, pop and collect: the heap is a
    faithful store of values, and collections never show. */
module HeapRuns {
  import opened BeamCore
  import opened HeapValues
  import opened GcTheorems
  import opened ErlProcess

  /** The filled heap, the registers and the stack words from the top down to the end. */
  datatype Store = Store(m: Space, x: seq<Term>, stack: seq<Term>, cap: nat)

  /** The same machine without a heap. */
  datatype Values = Values(x: seq<Value>, stack: seq<Value>)

  datatype Op =
    | Load(dst: nat, imm: Term)
    | Tuple(dst: nat, srcs: seq<nat>)
    | Cell(dst: nat, head: nat, tail: nat)
    | Fun(dst: nat, entry: nat, free: nat)
    | Element(dst: nat, src: nat, index: nat)
    | Uncons(src: nat, head: nat, tail: nat)
    | Push(src: nat)
    | Pop(dst: nat)
    | Collect(toBase: Address)

  predicate Wf(op: Op) {
    match op
    case Load(d, t) => d < NUM_X_REGISTERS && IsImmediate(t)
    case Tuple(d, ss) => d < NUM_X_REGISTERS && forall k :: 0 <= k < |ss| ==> ss[k] < NUM_X_REGISTERS
    case Cell(d, h, t) => d < NUM_X_REGISTERS && h < NUM_X_REGISTERS && t < NUM_X_REGISTERS
    case Fun(d, _, _) => d < NUM_X_REGISTERS
    case Element(d, s, _) => d < NUM_X_REGISTERS && s < NUM_X_REGISTERS
    case Uncons(s, h, t) => s < NUM_X_REGISTERS && h < NUM_X_REGISTERS && t < NUM_X_REGISTERS
    case Push(s) => s < NUM_X_REGISTERS
    case Pop(d) => d < NUM_X_REGISTERS
    case Collect(_) => true
  }

  function StackTop(s: Store): int {
    s.cap - |s.stack|
  }

  predicate Fits(s: Store, n: nat) {
    |s.m.words| + n <= StackTop(s)
  }

  /** The free variables `MAKE_FUN2` captures: the first registers, zero past the last. */
  function Captured<T>(x: seq<T>, zero: T, free: nat): (fs: seq<T>)
    ensures |fs| == free
  {
    if free <= |x| then x[..free] else x + seq(free - |x|, _ => zero)
  }

  function Picked<T>(x: seq<T>, srcs: seq<nat>): (ts: seq<T>)
    requires forall k :: 0 <= k < |srcs| ==> srcs[k] < |x|
    ensures |ts| == |srcs| && forall k :: 0 <= k < |srcs| ==> ts[k] == x[srcs[k]]
  {
    seq(|srcs|, k requires 0 <= k < |srcs| => x[srcs[k]])
  }

  function Build(s: Store, dst: nat, kind: Kind, refs: seq<Term>): Option<Store>
    requires dst < |s.x|
  {
    if !Fits(s, HeaderLen(kind) + |refs|) then None
    else Some(s.(m := Appended(s.m, kind, refs), x := s.x[dst := Pointer(kind, s.m.base + |s.m.words|)]))
  }

  /** One operation on the heap; `None` when it runs out of room or reads outside a term. */
  function Step(s: Store, op: Op): Option<Store>
    requires |s.x| == NUM_X_REGISTERS && Wf(op)
  {
    match op
    case Load(dst, imm) => Some(s.(x := s.x[dst := imm]))
    case Tuple(dst, srcs) => Build(s, dst, TupleKind, Picked(s.x, srcs))
    case Cell(dst, h, t) => Build(s, dst, ListKind, [s.x[h], s.x[t]])
    case Fun(dst, entry, free) => Build(s, dst, TupleKind, [MakeSmall(entry)] + Captured(s.x, Raw(0), free))
    case Element(dst, src, index) =>
      var t := s.x[src];
      if !IsTuple(s.m, t) then Some(s.(x := s.x[dst := Raw(0)]))
      else if !HasBlock(s.m, t) || index >= |Fields(s.m, t)| then None
      else Some(s.(x := s.x[dst := Fields(s.m, t)[index]]))
    case Uncons(src, h, t) =>
      if !s.x[src].List? || !HasBlock(s.m, s.x[src]) then None
      else var fs := Fields(s.m, s.x[src]); Some(s.(x := s.x[h := fs[0]][t := fs[1]]))
    case Push(src) => if !Fits(s, 1) then None else Some(s.(stack := [s.x[src]] + s.stack))
    case Pop(dst) => if s.stack == [] then None else Some(s.(x := s.x[dst := s.stack[0]], stack := s.stack[1..]))
    case Collect(at) =>
      if !(at + s.cap <= s.m.base || s.m.base + |s.m.words| <= at) then None
      else
        var c := CopyAll(s.m, s.x + s.stack, at, at + s.cap, Tagged);
        if |c.words| > StackTop(s) || Leaks(s.m, c.refs) || Leaks(s.m, c.words) then None
        else Some(Store(Space(at, c.words), c.refs[..|s.x|], c.refs[|s.x|..], s.cap))
  }

  /** The same operation on trees.  Collecting does nothing at all. */
  function ValueStep(v: Values, op: Op): Values
    requires |v.x| == NUM_X_REGISTERS && Wf(op)
  {
    match op
    case Load(dst, imm) => v.(x := v.x[dst := Imm(imm)])
    case Tuple(dst, srcs) => v.(x := v.x[dst := Block(TupleKind, Picked(v.x, srcs))])
    case Cell(dst, h, t) => v.(x := v.x[dst := Block(ListKind, [v.x[h], v.x[t]])])
    case Fun(dst, entry, free) =>
      v.(x := v.x[dst := Block(TupleKind, [Imm(MakeSmall(entry))] + Captured(v.x, Imm(Raw(0)), free))])
    case Element(dst, src, index) =>
      var u := v.x[src];
      v.(x := v.x[dst := if u.Block? && u.kind.TupleKind? && index < |u.kids| then u.kids[index] else Imm(Raw(0))])
    case Uncons(src, h, t) =>
      var u := v.x[src];
      if u.Block? && u.kind.ListKind? && |u.kids| == 2 then v.(x := v.x[h := u.kids[0]][t := u.kids[1]]) else v
    case Push(src) => v.(stack := [v.x[src]] + v.stack)
    case Pop(dst) => if v.stack == [] then v else v.(x := v.x[dst := v.stack[0]], stack := v.stack[1..])
    case Collect(_) => v
  }

  ghost predicate Stores(s: Store, v: Values) {
    && |s.x| == NUM_X_REGISTERS
    && |s.m.words| + |s.stack| <= s.cap
    && RepresentsAll(s.m, s.x, v.x)
    && RepresentsAll(s.m, s.stack, v.stack)
  }

  lemma BuildStores(s: Store, v: Values, dst: nat, kind: Kind, refs: seq<Term>, kids: seq<Value>)
    requires Stores(s, v) && dst < |s.x| && RepresentsAll(s.m, refs, kids) && (kind.ListKind? ==> |refs| == 2)
    requires Build(s, dst, kind, refs).Some?
    ensures Stores(Build(s, dst, kind, refs).value, v.(x := v.x[dst := Block(kind, kids)]))
  {
    hide Represents;
    var m' := Appended(s.m, kind, refs);
    AppendedBlock(s.m, kind, refs, kids);
    RepresentsAllExtends(s.m, m', s.x, v.x);
    RepresentsAllExtends(s.m, m', s.stack, v.stack);
  }

  lemma CollectStores(s: Store, v: Values, at: Address)
    requires Stores(s, v) && Step(s, Collect(at)).Some?
    ensures Stores(Step(s, Collect(at)).value, v)
  {
    hide Represents, CopyAll, Leaks, LayoutAll, SizeAll;
    var roots, vs := s.x + s.stack, v.x + v.stack;
    assert RepresentsAll(s.m, roots, vs);
    CollectionRoomExact(s.m, roots, vs, at, s.cap, StackTop(s), Tagged);
    CollectionPreservesMeaning(s.m, roots, vs, at, s.cap);
    var c := CopyAll(s.m, roots, at, at + s.cap, Tagged);
    var m' := Space(at, c.words);
    assert RepresentsAll(m', c.refs[..|s.x|], vs[..|s.x|]) && vs[..|s.x|] == v.x;
    assert RepresentsAll(m', c.refs[|s.x|..], vs[|s.x|..]) && vs[|s.x|..] == v.stack;
  }

  /** One operation commutes with reading the heap as values. */
  lemma StepRefines(s: Store, v: Values, op: Op)
    requires Stores(s, v) && Wf(op) && Step(s, op).Some?
    ensures Stores(Step(s, op).value, ValueStep(v, op))
  {
    hide CopyAll, Leaks;
    match op {
      case Tuple(dst, srcs) => BuildStores(s, v, dst, TupleKind, Picked(s.x, srcs), Picked(v.x, srcs));
      case Cell(dst, h, t) => BuildStores(s, v, dst, ListKind, [s.x[h], s.x[t]], [v.x[h], v.x[t]]);
      case Fun(dst, entry, free) =>
        assert Represents(s.m, MakeSmall(entry), Imm(MakeSmall(entry)));
        assert Represents(s.m, Raw(0), Imm(Raw(0)));
        BuildStores(s, v, dst, TupleKind, [MakeSmall(entry)] + Captured(s.x, Raw(0), free),
                    [Imm(MakeSmall(entry))] + Captured(v.x, Imm(Raw(0)), free));
      case Collect(at) => CollectStores(s, v, at);
      case Load(dst, imm) => assert Represents(s.m, imm, Imm(imm));
      case Element(dst, src, index) =>
        var u := v.x[src];
        assert Represents(s.m, s.x[src], u) && Represents(s.m, Raw(0), Imm(Raw(0)));
        if IsTuple(s.m, s.x[src]) {
          assert RepresentsAll(s.m, Fields(s.m, s.x[src]), u.kids);
          assert Represents(s.m, Fields(s.m, s.x[src])[index], u.kids[index]);
        } else {
          assert !(u.Block? && u.kind.TupleKind?);
        }
      case Uncons(src, h, t) =>
        var u := v.x[src];
        assert Represents(s.m, s.x[src], u);
        assert RepresentsAll(s.m, Fields(s.m, s.x[src]), u.kids);
      case Push(_) =>
      case Pop(_) =>
    }
  }

  function Run(s: Store, ops: seq<Op>): (r: Option<Store>)
    requires |s.x| == NUM_X_REGISTERS && forall k :: 0 <= k < |ops| ==> Wf(ops[k])
    ensures r.Some? ==> |r.value.x| == NUM_X_REGISTERS
    decreases |ops|
  {
    if ops == [] then Some(s)
    else
      match Step(s, ops[0])
      case None => None
      case Some(s') => if |s'.x| == NUM_X_REGISTERS then Run(s', ops[1..]) else None
  }

  function ValueRun(v: Values, ops: seq<Op>): Values
    requires |v.x| == NUM_X_REGISTERS && forall k :: 0 <= k < |ops| ==> Wf(ops[k])
    decreases |ops|
  {
    if ops == [] then v else ValueRun(ValueStep(v, ops[0]), ops[1..])
  }

  function NoCollects(ops: seq<Op>): (r: seq<Op>)
    ensures (forall k :: 0 <= k < |ops| ==> Wf(ops[k])) ==> forall k :: 0 <= k < |r| ==> Wf(r[k])
  {
    if ops == [] then []
    else if ops[0].Collect? then NoCollects(ops[1..])
    else [ops[0]] + NoCollects(ops[1..])
  }

  /** After any run that does not run out of room, every root still denotes a finite tree:
      the one the heap-free machine computes. */
  lemma {:induction false} RunRefines(s: Store, v: Values, ops: seq<Op>)
    requires Stores(s, v) && (forall k :: 0 <= k < |ops| ==> Wf(ops[k])) && Run(s, ops).Some?
    ensures Stores(Run(s, ops).value, ValueRun(v, ops))
    decreases |ops|
  {
    hide Step, ValueStep, Stores;
    if ops != [] {
      StepRefines(s, v, ops[0]);
      StoresRegisters(s, v);
      var s' := Step(s, ops[0]).value;
      RunRefines(s', ValueStep(v, ops[0]), ops[1..]);
    }
  }

  lemma StoresRegisters(s: Store, v: Values)
    requires Stores(s, v)
    ensures |s.x| == |v.x| == NUM_X_REGISTERS
  {
  }

  /** Where and how often a run collects makes no difference to any value. */
  lemma {:induction false} CollectionsInvisible(v: Values, ops: seq<Op>)
    requires |v.x| == NUM_X_REGISTERS && forall k :: 0 <= k < |ops| ==> Wf(ops[k])
    ensures ValueRun(v, NoCollects(ops)) == ValueRun(v, ops)
    decreases |ops|
  {
    if ops != [] {
      if ops[0].Collect? {
        CollectionsInvisible(v, ops[1..]);
      } else {
        assert NoCollects(ops)[1..] == NoCollects(ops[1..]);
        CollectionsInvisible(ValueStep(v, ops[0]), ops[1..]);
      }
    }
  }

  /** Two runs of the same program that collect at different points agree on every root. */
  lemma RunsAgree(s: Store, v: Values, ops: seq<Op>, ops': seq<Op>)
    requires Stores(s, v) && NoCollects(ops) == NoCollects(ops')
    requires forall k :: 0 <= k < |ops| ==> Wf(ops[k])
    requires forall k :: 0 <= k < |ops'| ==> Wf(ops'[k])
    requires Run(s, ops).Some? && Run(s, ops').Some?
    ensures exists w :: Stores(Run(s, ops).value, w) && Stores(Run(s, ops').value, w)
  {
    hide Stores, Run, ValueRun;
    StoresRegisters(s, v);
    RunRefines(s, v, ops);
    RunRefines(s, v, ops');
    CollectionsInvisible(v, ops);
    CollectionsInvisible(v, ops');
  }

  /** A fresh process stores zeros. */
  lemma FreshStores(base: Address, cap: nat)
    ensures Stores(Store(Space(base, []), seq(NUM_X_REGISTERS, _ => Raw(0)), [], cap),
                   Values(seq(NUM_X_REGISTERS, _ => Imm(Raw(0))), []))
  {
  }
}
