/** The copying collector: `gc_copy_term` and `beam_gc_collect_process`. */
module BeamGc {
  import opened BeamCore
  import opened HeapValues
  import opened ErlProcess
  import opened GcTheorems

  /** The words of a half-copied block: header from `top`, references from `start`, the
      copied fields themselves from `next` to `newTop`. */
  ghost predicate Filled(to: seq<Term>, top: nat, start: nat, next: nat, newTop: nat, head: seq<Term>, part: Copies) {
    && top <= start && start + |part.refs| <= next <= newTop <= |to|
    && to[top..start] == head
    && to[start..start + |part.refs|] == part.refs
    && to[next..newTop] == part.words
  }

  lemma FilledStep(to: seq<Term>, mid: seq<Term>, to': seq<Term>, top: nat, start: nat, next: nat, newTop: nat, newTop': nat,
                   head: seq<Term>, part: Copies, c: Copy)
    requires Filled(to, top, start, next, newTop, head, part) && start + |part.refs| < next
    requires |mid| == |to| && newTop <= newTop' <= |to| && mid[..newTop] == to[..newTop]
    requires mid[newTop..newTop'] == c.words && to' == mid[start + |part.refs| := c.ref]
    ensures Filled(to', top, start, next, newTop', head, Copies(part.refs + [c.ref], part.words + c.words))
  {
    var slot := start + |part.refs|;
    forall j | 0 <= j < newTop ensures to'[j] == if j == slot then c.ref else to[j] {
      assert mid[..newTop][j] == to[..newTop][j];
    }
    assert to'[newTop..newTop'] == mid[newTop..newTop'];
    assert to'[top..start] == to[top..start];
    assert to'[start..slot] == to[start..slot];
    assert to'[start..slot + 1] == to'[start..slot] + [c.ref];
    assert to'[next..newTop] == to[next..newTop];
    assert to'[next..newTop'] == to'[next..newTop] + to'[newTop..newTop'];
  }

  /** To-space `to` after the header and the first `i` fields of a block have been copied:
      the block starts at index `top`, the copies of its fields end at `newTop`. */
  ghost predicate Partial(to: seq<Term>, toBase: nat, top: nat, newTop: nat,
                          m: Space, kind: Kind, fields: seq<Term>, i: nat, style: HeaderStyle)
  {
    var start := top + HeaderLen(kind);
    var next := start + |fields|;
    && i <= |fields| && next <= |to|
    && Filled(to, top, start, next, newTop, HeaderWords(kind, |fields|, style),
              CopyAll(m, fields[..i], toBase + next, toBase + |to|, style))
  }

  /** `ref` and the words of `to` from `top` to `newTop` are the copy of `t`. */
  ghost predicate Copied(m: Space, t: Term, to: seq<Term>, toBase: nat, top: nat, style: HeaderStyle,
                         ref: Term, newTop: nat)
    requires top <= |to|
  {
    var c := CopyTerm(m, t, toBase + top, toBase + |to|, style);
    && ref == c.ref
    && newTop == top + |c.words| <= |to|
    && to[top..newTop] == c.words
  }

  lemma CopyAllStep(m: Space, fields: seq<Term>, i: nat, at: nat, limit: nat, style: HeaderStyle)
    requires i < |fields| && at <= limit
    ensures var part := CopyAll(m, fields[..i], at, limit, style);
            var c := CopyTerm(m, fields[i], at + |part.words|, limit, style);
            CopyAll(m, fields[..i + 1], at, limit, style) == Copies(part.refs + [c.ref], part.words + c.words)
  {
    assert fields[..i + 1][..i] == fields[..i];
  }

  /** Storing the copy of field `i` in its slot, behind the words copied so far. */
  lemma PartialStep(to: seq<Term>, mid: seq<Term>, to': seq<Term>, toBase: nat, top: nat, newTop: nat, newTop': nat,
                    m: Space, kind: Kind, fields: seq<Term>, i: nat, style: HeaderStyle, ref: Term)
    requires Partial(to, toBase, top, newTop, m, kind, fields, i, style) && i < |fields|
    requires |mid| == |to| && mid[..newTop] == to[..newTop]
    requires Copied(m, fields[i], mid, toBase, newTop, style, ref, newTop')
    requires to' == mid[top + HeaderLen(kind) + i := ref]
    ensures Partial(to', toBase, top, newTop', m, kind, fields, i + 1, style)
  {
    hide CopyTerm, CopyAll, HeaderWords;
    var start := top + HeaderLen(kind);
    var at, limit := toBase + start + |fields|, toBase + |to|;
    var part := CopyAll(m, fields[..i], at, limit, style);
    var c := CopyTerm(m, fields[i], toBase + newTop, limit, style);
    CopyAllStep(m, fields, i, at, limit, style);
    FilledStep(to, mid, to', top, start, start + |fields|, newTop, newTop', HeaderWords(kind, |fields|, style), part, c);
    hide Filled;
  }

  /** The two cases in which the copier hands its argument back. */
  lemma HandedBack(m: Space, t: Term, to: seq<Term>, toBase: nat, top: nat, style: HeaderStyle)
    requires top <= |to|
    requires HasBlock(m, t) ==> top + HeaderLen(KindOf(t)) + |Fields(m, t)| > |to|
    ensures Copied(m, t, to, toBase, top, style, t, top)
  {
  }

  lemma PartialStart(to: seq<Term>, toBase: nat, top: nat, m: Space, kind: Kind, fields: seq<Term>, style: HeaderStyle)
    requires top + HeaderLen(kind) + |fields| <= |to|
    requires to[top..top + HeaderLen(kind)] == HeaderWords(kind, |fields|, style)
    ensures Partial(to, toBase, top, top + HeaderLen(kind) + |fields|, m, kind, fields, 0, style)
  {
    assert fields[..0] == [];
  }

  lemma PartialDone(to: seq<Term>, toBase: nat, top: nat, newTop: nat, m: Space, t: Term, style: HeaderStyle)
    requires HasBlock(m, t)
    requires Partial(to, toBase, top, newTop, m, KindOf(t), Fields(m, t), |Fields(m, t)|, style)
    ensures top <= |to| && Copied(m, t, to, toBase, top, style, Pointer(KindOf(t), toBase + top), newTop)
  {
    hide CopyAll, HeaderWords, HasBlock, Fields, Pointer;
    var fields := Fields(m, t);
    var start := top + HeaderLen(KindOf(t));
    assert fields[..|fields|] == fields;
    ThreeParts(to, top, start, start + |fields|, newTop);
  }

  lemma ThreeParts(s: seq<Term>, a: nat, b: nat, c: nat, d: nat)
    requires a <= b <= c <= d <= |s|
    ensures s[a..d] == s[a..b] + s[b..c] + s[c..d]
  {
  }

  /** The reads `ptr[i + 1]` or `ptr[i]` of a block's fields. */
  lemma ReadField(proc: Process, m: Space, t: Term, v: Value, i: nat)
    requires proc.Valid() && m == proc.Live() && Represents(m, t, v) && HasBlock(m, t)
    requires i < |Fields(m, t)|
    ensures v.Block? && |v.kids| == |Fields(m, t)| && Represents(m, Fields(m, t)[i], v.kids[i])
    ensures var k := t.addr - m.base + HeaderLen(KindOf(t)) + i;
            0 <= k < proc.heap.Length && proc.heap[k] == Fields(m, t)[i]
  {
    hide Represents, IsHeader;
    FieldsRepresent(m, t, v);
    assert Fields(m, t)[i] == m.words[t.addr - m.base + HeaderLen(KindOf(t)) + i];
  }

  lemma FieldsRepresent(m: Space, t: Term, v: Value)
    requires Represents(m, t, v) && HasBlock(m, t)
    ensures v.Block? && RepresentsAll(m, Fields(m, t), v.kids)
  {
  }

  /** Copies one term into `to` from index `top`.  It writes the words it reserves and no
      others, and returns what `HeapValues.CopyTerm` says; `v` bounds the recursion. */
  method CopyTermInto(proc: Process, t: Term, to: array<Term>, toBase: nat, top: nat, style: HeaderStyle, ghost m: Space, ghost v: Value)
    returns (ref: Term, newTop: nat)
    requires proc.Valid() && to != proc.heap && top <= to.Length
    requires m == proc.Live() && Represents(m, t, v)
    modifies to
    ensures Copied(m, t, to[..], toBase, top, style, ref, newTop)
    ensures to[..top] == old(to[..top]) && to[newTop..] == old(to[newTop..])
    decreases v, 2
  {
    hide CopyTerm, CopyAll;
    if t.Boxed? && IsHeader(proc.heap[t.addr - proc.base]) {
      ref, newTop := CopyTuple(proc, t, to, toBase, top, style, m, v);
    } else if t.List? {
      ref, newTop := CopyCell(proc, t, to, toBase, top, style, m, v);
    } else {
      ref, newTop := t, top;
      HandedBack(m, t, to[..], toBase, top, style);
    }
  }

  /** The tuple branch of `gc_copy_term`. */
  method CopyTuple(proc: Process, t: Term, to: array<Term>, toBase: nat, top: nat, style: HeaderStyle, ghost m: Space, ghost v: Value)
    returns (ref: Term, newTop: nat)
    requires proc.Valid() && to != proc.heap && top <= to.Length
    requires m == proc.Live() && Represents(m, t, v) && t.Boxed? && HasBlock(m, t)
    modifies to
    ensures Copied(m, t, to[..], toBase, top, style, ref, newTop)
    ensures to[..top] == old(to[..top]) && to[newTop..] == old(to[newTop..])
    decreases v, 1
  {
    hide CopyTerm, CopyAll, Represents, RepresentsAll, Partial, Copied;
    ghost var fields := Fields(m, t);
    ghost var before := to[..];
    var from := t.addr - proc.base;
    var arity := proc.heap[from].n / 64;
    if top + arity + 1 > to.Length {
      HandedBack(m, t, to[..], toBase, top, style);
      return t, top;
    }
    to[top] := if style.Tagged? then Header(arity) else MakeSmall(arity);
    newTop := top + arity + 1;
    PartialStart(to[..], toBase, top, m, TupleKind, fields, style);
    hide HeaderWords;
    for i := 0 to arity
      invariant Partial(to[..], toBase, top, newTop, m, TupleKind, fields, i, style)
      invariant top <= newTop <= to.Length && to[..top] == before[..top] && to[newTop..] == before[newTop..]
    {
      ghost var was, wasTop := to[..], newTop;
      ReadField(proc, m, t, v, i);
      newTop := CopyField(proc, TupleKind, to, toBase, top, newTop, style, m, fields, i, top + 1 + i,
                          proc.heap[from + 1 + i], v.kids[i]);
      TailKept(to[..], was, before, wasTop, newTop);
    }
    PartialDone(to[..], toBase, top, newTop, m, t, style);
    ref := Boxed(toBase + top);
  }

  lemma TailKept(s: seq<Term>, t: seq<Term>, u: seq<Term>, a: nat, b: nat)
    requires a <= b <= |s| == |t| == |u| && s[b..] == t[b..] && t[a..] == u[a..]
    ensures s[b..] == u[b..]
  {
    assert t[b..] == t[a..][b - a..];
    assert u[b..] == u[a..][b - a..];
  }

  /** The list-cell branch of `gc_copy_term`. */
  method CopyCell(proc: Process, t: Term, to: array<Term>, toBase: nat, top: nat, style: HeaderStyle, ghost m: Space, ghost v: Value)
    returns (ref: Term, newTop: nat)
    requires proc.Valid() && to != proc.heap && top <= to.Length
    requires m == proc.Live() && Represents(m, t, v) && t.List? && HasBlock(m, t)
    modifies to
    ensures Copied(m, t, to[..], toBase, top, style, ref, newTop)
    ensures to[..top] == old(to[..top]) && to[newTop..] == old(to[newTop..])
    decreases v, 1
  {
    hide CopyTerm, CopyAll, Represents, RepresentsAll, Partial;
    if top + 2 > to.Length {
      HandedBack(m, t, to[..], toBase, top, style);
      return t, top;
    }
    ghost var fields, before := Fields(m, t), to[..];
    ReadField(proc, m, t, v, 0);
    ReadField(proc, m, t, v, 1);
    var from := t.addr - proc.base;
    var head, tail := proc.heap[from], proc.heap[from + 1];
    PartialStart(to[..], toBase, top, m, ListKind, fields, style);
    var midTop := CopyField(proc, ListKind, to, toBase, top, top + 2, style, m, fields, 0, top, head, v.kids[0]);
    ghost var was := to[..];
    newTop := CopyField(proc, ListKind, to, toBase, top, midTop, style, m, fields, 1, top + 1, tail, v.kids[1]);
    TailKept(to[..], was, before, midTop, newTop);
    PartialDone(to[..], toBase, top, newTop, m, t, style);
    ref := List(toBase + top);
  }

  /** The assignment `to_space[slot] = gc_copy_term(field)` for field `i` of a block. */
  method CopyField(proc: Process, ghost kind: Kind, to: array<Term>, toBase: nat, ghost top: nat, oldTop: nat,
                   style: HeaderStyle, ghost m: Space, ghost fields: seq<Term>, ghost i: nat, slot: nat, field: Term, ghost v: Value)
    returns (newTop: nat)
    requires proc.Valid() && to != proc.heap
    requires Partial(to[..], toBase, top, oldTop, m, kind, fields, i, style)
    requires i < |fields| && slot == top + HeaderLen(kind) + i
    requires m == proc.Live() && field == fields[i] && Represents(m, field, v)
    modifies to
    ensures Partial(to[..], toBase, top, newTop, m, kind, fields, i + 1, style)
    ensures oldTop <= newTop <= to.Length
    ensures to[..top] == old(to[..top]) && to[newTop..] == old(to[newTop..])
    decreases v, 3
  {
    hide CopyTerm, CopyAll, Represents, RepresentsAll;
    ghost var was := to[..];
    var ref;
    ref, newTop := CopyTermInto(proc, field, to, toBase, oldTop, style, m, v);
    ghost var mid := to[..];
    to[slot] := ref;
    PartialStep(was, mid, to[..], toBase, top, oldTop, newTop, m, kind, fields, i, style, ref);
    assert to[..top] == mid[..top] == mid[..oldTop][..top] == was[..oldTop][..top] == was[..top];
  }

  // ---------- collecting a whole process ----------

  /** The process after a collection that copied `roots` from `m`: registers and heap top
      are what the copier returned; heap and stack hold its words unless they collided. */
  ghost predicate Collected(proc: Process, m: Space, roots: seq<Term>, style: HeaderStyle)
    requires proc.Valid()
    reads proc, proc.heap, proc.x
  {
    var c := CopyAll(m, roots, proc.base, proc.base + proc.heap.Length, style);
    && proc.heapTop == |c.words|
    && |roots| == NUM_X_REGISTERS + |proc.Stack()|
    && proc.x[..] == c.refs[..NUM_X_REGISTERS]
    && (proc.heapTop <= proc.stackTop ==> proc.Live().words == c.words && proc.Roots() == c.refs)
  }

  /** One collection.  `vs` are the values of the roots; nothing is asked about room. */
  method CollectProcess(proc: Process, style: HeaderStyle, toBase: Address, ghost vs: seq<Value>) returns (status: Status)
    requires proc.Valid() && RepresentsAll(proc.Live(), proc.Roots(), vs)
    modifies proc`heap, proc`base, proc`heapTop, proc.x
    ensures status == Ok && proc.Valid() && fresh(proc.heap)
    ensures proc.base == toBase && proc.heap.Length == old(proc.heap.Length)
    ensures Collected(proc, old(proc.Live()), old(proc.Roots()), style)
    ensures style.Tagged? && SizeAll(vs) <= proc.stackTop ==>
              proc.heapTop == SizeAll(vs) && RepresentsAll(proc.Live(), proc.Roots(), vs)
  {
    hide CopyTerm, CopyAll, LayoutAll, Represents;
    ghost var m, roots := proc.Live(), proc.Roots();
    var to := new Term[proc.heap.Length];
    var top;
    ghost var c;
    top, c := CopyRoots(proc, to, toBase, style, m, roots, vs);
    RootsCollected(proc.x[..], to[..], top, proc.stackTop, m, roots, toBase, style, c);
    proc.heap := to;
    proc.base := toBase;
    proc.heapTop := top;
    status := Ok;
    if style.Tagged? && SizeAll(vs) <= proc.stackTop {
      CollectionPreservesMeaning(m, roots, vs, toBase, to.Length);
    }
  }

  /** The register loop and the stack loop. */
  method CopyRoots(proc: Process, to: array<Term>, toBase: nat, style: HeaderStyle,
                   ghost m: Space, ghost roots: seq<Term>, ghost vs: seq<Value>) returns (top: nat, ghost c: Copies)
    requires proc.Valid() && to != proc.heap && to != proc.x && to.Length == proc.heap.Length
    requires m == proc.Live() && roots == proc.Roots() && RepresentsAll(m, roots, vs)
    modifies to, proc.x
    ensures RootsDone(proc.x[..], to[..], top, proc.stackTop, roots, |roots|, c)
    ensures PrefixCopy(m, roots, |roots|, toBase, to.Length, style, c)
  {
    hide CopyTerm, CopyAll, Represents, PrefixCopy;
    top, c := 0, Copies([], []);
    PrefixCopyStart(m, roots, toBase, to.Length, style);
    for i := 0 to NUM_X_REGISTERS
      invariant proc.Live() == m && proc.Stack() == roots[NUM_X_REGISTERS..]
      invariant PrefixCopy(m, roots, i, toBase, to.Length, style, c)
      invariant RootsDone(proc.x[..], to[..], top, proc.stackTop, roots, i, c)
    {
      PrefixCopyStep(m, roots, i, toBase, to.Length, style, c);
      ghost var d := CopyTerm(m, roots[i], toBase + top, toBase + to.Length, style);
      top := CopyRegister(proc, i, to, toBase, top, style, m, roots, c, vs[i]);
      c := Grown(c, d);
    }
    top, c := CopyStack(proc, to, toBase, top, style, m, roots, vs, c);
  }

  method CopyStack(proc: Process, to: array<Term>, toBase: nat, start: nat, style: HeaderStyle,
                   ghost m: Space, ghost roots: seq<Term>, ghost vs: seq<Value>, ghost registers: Copies)
    returns (top: nat, ghost c: Copies)
    requires proc.Valid() && to != proc.heap && to != proc.x && to.Length == proc.heap.Length
    requires m == proc.Live() && |roots| == NUM_X_REGISTERS + |proc.Stack()|
    requires proc.Stack() == roots[NUM_X_REGISTERS..] && RepresentsAll(m, roots, vs)
    requires PrefixCopy(m, roots, NUM_X_REGISTERS, toBase, to.Length, style, registers)
    requires RootsDone(proc.x[..], to[..], start, proc.stackTop, roots, NUM_X_REGISTERS, registers)
    modifies to
    ensures RootsDone(proc.x[..], to[..], top, proc.stackTop, roots, |roots|, c)
    ensures PrefixCopy(m, roots, |roots|, toBase, to.Length, style, c)
  {
    hide CopyTerm, CopyAll, Represents, PrefixCopy;
    top, c := start, registers;
    ghost var i: nat := NUM_X_REGISTERS;
    for s := proc.stackTop to to.Length
      invariant proc.Live() == m && proc.Stack() == roots[NUM_X_REGISTERS..]
      invariant i == NUM_X_REGISTERS + (s - proc.stackTop)
      invariant PrefixCopy(m, roots, i, toBase, to.Length, style, c)
      invariant RootsDone(proc.x[..], to[..], top, proc.stackTop, roots, i, c)
    {
      assert proc.heap[s] == proc.Stack()[s - proc.stackTop] == roots[i];
      PrefixCopyStep(m, roots, i, toBase, to.Length, style, c);
      ghost var d := CopyTerm(m, roots[i], toBase + top, toBase + to.Length, style);
      top := CopyStackSlot(proc, s, to, toBase, top, style, m, roots, i, c, vs[i]);
      c, i := Grown(c, d), i + 1;
    }
  }

  ghost predicate PrefixCopy(m: Space, roots: seq<Term>, i: nat, at: nat, cap: nat, style: HeaderStyle, c: Copies)
    requires i <= |roots|
  {
    c == CopyAll(m, roots[..i], at, at + cap, style)
  }

  lemma PrefixCopyStart(m: Space, roots: seq<Term>, at: nat, cap: nat, style: HeaderStyle)
    ensures PrefixCopy(m, roots, 0, at, cap, style, Copies([], []))
  {
  }

  lemma PrefixCopyStep(m: Space, roots: seq<Term>, i: nat, at: nat, cap: nat, style: HeaderStyle, c: Copies)
    requires i < |roots| && PrefixCopy(m, roots, i, at, cap, style, c)
    ensures |c.words| <= cap
    ensures PrefixCopy(m, roots, i + 1, at, cap, style,
                       Grown(c, CopyTerm(m, roots[i], at + |c.words|, at + cap, style)))
  {
    hide CopyTerm, CopyAll;
    CopyAllStep(m, roots, i, at, at + cap, style);
  }

  lemma RootsCollected(xs: seq<Term>, to: seq<Term>, top: nat, stackTop: nat, m: Space, roots: seq<Term>, at: nat,
                       style: HeaderStyle, c: Copies)
    requires RootsDone(xs, to, top, stackTop, roots, |roots|, c)
    requires PrefixCopy(m, roots, |roots|, at, |to|, style, c)
    ensures c == CopyAll(m, roots, at, at + |to|, style)
    ensures top == |c.words| && xs == c.refs[..NUM_X_REGISTERS]
    ensures top <= stackTop ==> to[..top] == c.words && xs + to[stackTop..] == c.refs
  {
    hide CopyTerm, CopyAll;
    assert roots[..|roots|] == roots;
    if |roots| == NUM_X_REGISTERS {
      assert to[stackTop..] == [] && roots[NUM_X_REGISTERS..NUM_X_REGISTERS] == [];
    } else if top <= stackTop {
      assert c.refs == c.refs[..NUM_X_REGISTERS] + c.refs[NUM_X_REGISTERS..];
    }
  }

  /** Registers `xs` and to-space `to` after the first `i` roots: a root's new reference
      stands in its register or stack slot, the copied words from index 0 to `top`. */
  ghost predicate RootsDone(xs: seq<Term>, to: seq<Term>, top: nat, stackTop: nat, roots: seq<Term>, i: nat, c: Copies) {
    && |xs| == NUM_X_REGISTERS && i <= |roots| == NUM_X_REGISTERS + (|to| - stackTop) && stackTop <= |to|
    && |c.refs| == i && top == |c.words| <= |to|
    && (i <= NUM_X_REGISTERS ==> xs == c.refs + roots[i..NUM_X_REGISTERS] && to[..top] == c.words)
    && (i > NUM_X_REGISTERS ==> xs == c.refs[..NUM_X_REGISTERS])
    && (top <= stackTop && i > NUM_X_REGISTERS ==>
          to[..top] == c.words && to[stackTop..stackTop + i - NUM_X_REGISTERS] == c.refs[NUM_X_REGISTERS..])
  }

  function Grown(c: Copies, d: Copy): Copies {
    Copies(c.refs + [d.ref], c.words + d.words)
  }

  lemma RegisterDone(xs: seq<Term>, was: seq<Term>, to: seq<Term>, top: nat, stackTop: nat, roots: seq<Term>, i: nat, c: Copies, d: Copy)
    requires RootsDone(xs, was, top, stackTop, roots, i, c) && i < NUM_X_REGISTERS
    requires |to| == |was| && top + |d.words| <= |to|
    requires to[..top] == was[..top] && to[top..top + |d.words|] == d.words
    ensures xs[i] == roots[i]
    ensures RootsDone(xs[i := d.ref], to, top + |d.words|, stackTop, roots, i + 1, Grown(c, d))
  {
    assert to[..top + |d.words|] == to[..top] + to[top..top + |d.words|];
  }

  lemma StackSlotDone(xs: seq<Term>, was: seq<Term>, to: seq<Term>, top: nat, stackTop: nat, roots: seq<Term>, i: nat, c: Copies, d: Copy)
    requires RootsDone(xs, was, top, stackTop, roots, i, c) && NUM_X_REGISTERS <= i < |roots|
    requires |to| == |was| && top + |d.words| <= |to|
    requires to[..top] == was[..top] && to[top..top + |d.words|] == d.words && to[top + |d.words|..] == was[top + |d.words|..]
    ensures RootsDone(xs, to[stackTop + i - NUM_X_REGISTERS := d.ref], top + |d.words|, stackTop, roots, i + 1, Grown(c, d))
  {
    var s := stackTop + i - NUM_X_REGISTERS;
    var newTop := top + |d.words|;
    if newTop <= stackTop {
      assert to[s := d.ref][..newTop] == to[..top] + to[top..newTop];
      forall k | stackTop <= k < s ensures to[k] == was[k] {
        assert to[newTop..][k - newTop] == was[newTop..][k - newTop];
      }
      assert to[s := d.ref][stackTop..s + 1] == was[stackTop..s] + [d.ref];
    }
  }

  /** One turn of the register loop; a zero register is skipped. */
  method CopyRegister(proc: Process, i: nat, to: array<Term>, toBase: nat, top: nat, style: HeaderStyle,
                      ghost m: Space, ghost roots: seq<Term>, ghost c: Copies, ghost v: Value)
    returns (newTop: nat)
    requires proc.Valid() && to != proc.heap && to != proc.x && proc.stackTop <= to.Length && top <= to.Length
    requires m == proc.Live() && i < NUM_X_REGISTERS <= |roots| && Represents(m, roots[i], v)
    requires RootsDone(proc.x[..], to[..], top, proc.stackTop, roots, i, c)
    modifies to, proc.x
    ensures RootsDone(proc.x[..], to[..], newTop, proc.stackTop, roots, i + 1,
                      Grown(c, CopyTerm(m, roots[i], toBase + top, toBase + to.Length, style)))
  {
    hide CopyTerm, CopyAll, Represents;
    ghost var xs, was := proc.x[..], to[..];
    assert proc.x[i] == roots[i];
    var ref;
    if proc.x[i] != Raw(0) {
      ref, newTop := CopyTermInto(proc, proc.x[i], to, toBase, top, style, m, v);
      proc.x[i] := ref;
    } else {
      ref, newTop := Raw(0), top;
      HandedBack(m, Raw(0), to[..], toBase, top, style);
      assert xs == xs[i := ref];
    }
    RegisterDone(xs, was, to[..], top, proc.stackTop, roots, i, c, Copy(ref, to[top..newTop]));
  }

  /** One turn of the stack loop. */
  method CopyStackSlot(proc: Process, s: nat, to: array<Term>, toBase: nat, top: nat, style: HeaderStyle,
                       ghost m: Space, ghost roots: seq<Term>, ghost i: nat, ghost c: Copies, ghost v: Value)
    returns (newTop: nat)
    requires proc.Valid() && to != proc.heap && to != proc.x && to.Length == proc.heap.Length && top <= to.Length
    requires proc.stackTop <= s < to.Length && i == NUM_X_REGISTERS + (s - proc.stackTop)
    requires m == proc.Live() && |roots| == NUM_X_REGISTERS + (to.Length - proc.stackTop)
    requires proc.heap[s] == roots[i] && Represents(m, roots[i], v)
    requires RootsDone(proc.x[..], to[..], top, proc.stackTop, roots, i, c)
    modifies to
    ensures RootsDone(proc.x[..], to[..], newTop, proc.stackTop, roots, i + 1,
                      Grown(c, CopyTerm(m, roots[i], toBase + top, toBase + to.Length, style)))
  {
    hide CopyTerm, CopyAll, Represents;
    ghost var was := to[..];
    var ref;
    ref, newTop := CopyTermInto(proc, proc.heap[s], to, toBase, top, style, m, v);
    StackSlotDone(proc.x[..], was, to[..], top, proc.stackTop, roots, i, c, Copy(ref, to[top..newTop]));
    to[s] := ref;
  }
}
