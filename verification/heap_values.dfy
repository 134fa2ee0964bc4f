/** What a term on a process heap means, what the copying collector writes,
    and how the two are related. */
module HeapValues {
  import opened BeamCore

  datatype Kind = TupleKind | ListKind

  /** The tree a term denotes once every pointer is followed. */
  datatype Value =
    | Imm(term: Term)
    | Block(kind: Kind, kids: seq<Value>)

  /** A run of heap words starting at word address `base`. */
  datatype Space = Space(base: Address, words: seq<Term>)

  /** How the collector writes a tuple header: `AsWritten` is the small integer the
      source stores, `Tagged` the header every reader and constructor expects. */
  datatype HeaderStyle = AsWritten | Tagged

  /** A word without a pointer tag; a saved code address may be one. */
  predicate IsImmediate(t: Term) {
    !t.List? && !t.Boxed? && (t.Raw? ==> t.n % 4 != 1 && t.n % 4 != 2)
  }

  function HeaderLen(kind: Kind): nat {
    if kind.TupleKind? then 1 else 0
  }

  function HeaderWords(kind: Kind, arity: nat, style: HeaderStyle): (ws: seq<Term>)
    ensures |ws| == HeaderLen(kind)
  {
    match kind
    case ListKind => []
    case TupleKind => if style.Tagged? then [Header(arity)] else [MakeSmall(arity)]
  }

  function Pointer(kind: Kind, addr: nat): Term {
    if kind.TupleKind? then Boxed(addr) else List(addr)
  }

  // ---------- reading a heap ----------

  /** A null pointer is no tuple: it points below every base. */
  predicate IsTuple(m: Space, t: Term) {
    t.Boxed? && m.base <= t.addr < m.base + |m.words| && IsHeader(m.words[t.addr - m.base])
  }

  function Arity(m: Space, t: Term): nat
    requires IsTuple(m, t)
  {
    m.words[t.addr - m.base].n / 64
  }

  predicate HasBlock(m: Space, t: Term) {
    || (IsTuple(m, t) && t.addr + 1 + Arity(m, t) <= m.base + |m.words|)
    || (t.List? && m.base <= t.addr && t.addr + 2 <= m.base + |m.words|)
  }

  function KindOf(t: Term): Kind {
    if t.List? then ListKind else TupleKind
  }

  function Fields(m: Space, t: Term): seq<Term>
    requires HasBlock(m, t)
  {
    var i := t.addr - m.base;
    if t.List? then m.words[i..i + 2] else m.words[i + 1..i + 1 + Arity(m, t)]
  }

  /** `t` read in `m` denotes `v`.  Recursion is on the value, so a term that denotes
      anything reaches no cycle and no word outside `m`. */
  ghost predicate Represents(m: Space, t: Term, v: Value)
    decreases v
  {
    match v
    case Imm(w) => t == w && IsImmediate(w)
    case Block(kind, kids) => HasBlock(m, t) && KindOf(t) == kind && RepresentsAll(m, Fields(m, t), kids)
  }

  ghost predicate RepresentsAll(m: Space, ts: seq<Term>, vs: seq<Value>)
    decreases vs
  {
    |ts| == |vs| && forall k :: 0 <= k < |vs| ==> Represents(m, ts[k], vs[k])
  }

  /** A term denotes at most one value. */
  lemma {:induction false} RepresentsUnique(m: Space, t: Term, v: Value, w: Value)
    requires Represents(m, t, v) && Represents(m, t, w)
    ensures v == w
    decreases v
  {
    if v.Block? {
      forall k | 0 <= k < |v.kids| ensures v.kids[k] == w.kids[k] {
        RepresentsUnique(m, Fields(m, t)[k], v.kids[k], w.kids[k]);
      }
    }
  }

  predicate Extends(m: Space, m': Space) {
    m.base == m'.base && m.words <= m'.words
  }

  lemma FieldsExtend(m: Space, m': Space, t: Term)
    requires Extends(m, m') && HasBlock(m, t)
    ensures HasBlock(m', t) && Fields(m', t) == Fields(m, t)
  {
  }

  /** Words added after the filled part of a heap change no value. */
  lemma {:induction false} RepresentsExtends(m: Space, m': Space, t: Term, v: Value)
    requires Extends(m, m') && Represents(m, t, v)
    ensures Represents(m', t, v)
    decreases v
  {
    hide Extends, HasBlock, Fields;
    if v.Block? {
      FieldsExtend(m, m', t);
      forall k | 0 <= k < |v.kids| ensures Represents(m', Fields(m', t)[k], v.kids[k]) {
        RepresentsExtends(m, m', Fields(m, t)[k], v.kids[k]);
      }
    }
  }

  lemma RepresentsAllExtends(m: Space, m': Space, ts: seq<Term>, vs: seq<Value>)
    requires Extends(m, m') && RepresentsAll(m, ts, vs)
    ensures RepresentsAll(m', ts, vs)
  {
    forall k | 0 <= k < |vs| ensures Represents(m', ts[k], vs[k]) {
      RepresentsExtends(m, m', ts[k], vs[k]);
    }
  }

  /** Heap words a value needs when nothing is shared. */
  function Size(v: Value): nat {
    match v
    case Imm(_) => 0
    case Block(kind, kids) => HeaderLen(kind) + |kids| + SizeAll(kids)
  }

  function SizeAll(vs: seq<Value>): nat {
    if vs == [] then 0 else SizeAll(vs[..|vs| - 1]) + Size(vs[|vs| - 1])
  }

  // ---------- what the copier writes ----------

  datatype Copy = Copy(ref: Term, words: seq<Term>)
  datatype Copies = Copies(refs: seq<Term>, words: seq<Term>)

  /** The reference the copier returns and the words it writes from address `at`
      when to-space ends at `limit`. */
  function CopyTerm(m: Space, t: Term, at: nat, limit: nat, style: HeaderStyle): (c: Copy)
    requires at <= limit
    ensures at + |c.words| <= limit
    decreases limit - at, 0
  {
    if !HasBlock(m, t) then Copy(t, [])
    else
      var fields := Fields(m, t);
      var next := at + HeaderLen(KindOf(t)) + |fields|;
      if next > limit then Copy(t, [])
      else
        var rest := CopyAll(m, fields, next, limit, style);
        Copy(Pointer(KindOf(t), at), HeaderWords(KindOf(t), |fields|, style) + rest.refs + rest.words)
  }

  /** Terms copied one after the other. */
  function CopyAll(m: Space, ts: seq<Term>, at: nat, limit: nat, style: HeaderStyle): (c: Copies)
    requires at <= limit
    ensures at + |c.words| <= limit && |c.refs| == |ts|
    decreases limit - at, |ts|
  {
    if ts == [] then Copies([], [])
    else
      var first := CopyAll(m, ts[..|ts| - 1], at, limit, style);
      var last := CopyTerm(m, ts[|ts| - 1], at + |first.words|, limit, style);
      Copies(first.refs + [last.ref], first.words + last.words)
  }

  /** The pre-order serialization of a value at address `at`: block first, then its
      children left to right.  It mentions no source heap. */
  function Layout(v: Value, at: nat, style: HeaderStyle): (c: Copy)
    ensures |c.words| == Size(v)
    decreases v
  {
    match v
    case Imm(w) => Copy(w, [])
    case Block(kind, kids) =>
      var rest := LayoutAll(kids, at + HeaderLen(kind) + |kids|, style);
      Copy(Pointer(kind, at), HeaderWords(kind, |kids|, style) + rest.refs + rest.words)
  }

  function LayoutAll(vs: seq<Value>, at: nat, style: HeaderStyle): (c: Copies)
    ensures |c.words| == SizeAll(vs) && |c.refs| == |vs|
    decreases vs
  {
    if vs == [] then Copies([], [])
    else
      var first := LayoutAll(vs[..|vs| - 1], at, style);
      var last := Layout(vs[|vs| - 1], at + |first.words|, style);
      Copies(first.refs + [last.ref], first.words + last.words)
  }

  /** With room, the copy depends on the value alone and is its serialization. */
  lemma {:induction false} CopyIsLayout(m: Space, t: Term, v: Value, at: nat, limit: nat, style: HeaderStyle)
    requires Represents(m, t, v) && at + Size(v) <= limit
    ensures CopyTerm(m, t, at, limit, style) == Layout(v, at, style)
    decreases v
  {
    hide CopyAll, LayoutAll;
    if v.Block? {
      CopyAllIsLayout(m, Fields(m, t), v.kids, at + HeaderLen(v.kind) + |v.kids|, limit, style);
    }
  }

  lemma {:induction false} CopyAllIsLayout(m: Space, ts: seq<Term>, vs: seq<Value>, at: nat, limit: nat, style: HeaderStyle)
    requires RepresentsAll(m, ts, vs) && at + SizeAll(vs) <= limit
    ensures CopyAll(m, ts, at, limit, style) == LayoutAll(vs, at, style)
    decreases vs
  {
    hide CopyTerm, Layout, Represents;
    if vs != [] {
      var n := |vs| - 1;
      CopyAllIsLayout(m, ts[..n], vs[..n], at, limit, style);
      CopyIsLayout(m, ts[n], vs[n], at + SizeAll(vs[..n]), limit, style);
    }
  }

  // ---------- a serialization read back ----------

  /** The words `ws` stand in `m` at address `at`. */
  predicate Holds(m: Space, at: nat, ws: seq<Term>) {
    m.base <= at && at + |ws| <= m.base + |m.words| && m.words[at - m.base..at - m.base + |ws|] == ws
  }

  lemma HoldsSplit(m: Space, at: nat, ws: seq<Term>, us: seq<Term>)
    requires Holds(m, at, ws + us)
    ensures Holds(m, at, ws) && Holds(m, at + |ws|, us)
  {
    SliceSplit(m.words, at - m.base, |ws|, |us|);
    assert |ws + us| == |ws| + |us| && (ws + us)[..|ws|] == ws && (ws + us)[|ws|..] == us;
  }

  lemma SliceSplit(s: seq<Term>, i: nat, n: nat, k: nat)
    requires i + n + k <= |s|
    ensures s[i..i + n] == s[i..i + (n + k)][..n] && s[i + n..i + n + k] == s[i..i + (n + k)][n..]
  {
  }

  /** No tuple anywhere in the value. */
  ghost predicate TupleFree(v: Value)
    decreases v
  {
    v.Block? ==> v.kind.ListKind? && forall k :: 0 <= k < |v.kids| ==> TupleFree(v.kids[k])
  }

  ghost predicate WellShaped(v: Value)
    decreases v
  {
    match v
    case Imm(w) => IsImmediate(w)
    case Block(kind, kids) =>
      (kind.ListKind? ==> |kids| == 2) && forall k :: 0 <= k < |kids| ==> WellShaped(kids[k])
  }

  lemma {:induction false} RepresentedIsWellShaped(m: Space, t: Term, v: Value)
    requires Represents(m, t, v)
    ensures WellShaped(v)
    decreases v
  {
    if v.Block? {
      forall k | 0 <= k < |v.kids| ensures WellShaped(v.kids[k]) {
        RepresentedIsWellShaped(m, Fields(m, t)[k], v.kids[k]);
      }
    }
  }

  /** A block standing at `at` has the children's references as its fields exactly when
      its header can be read. */
  lemma BlockFields(m: Space, kind: Kind, refs: seq<Term>, at: nat, style: HeaderStyle)
    requires Holds(m, at, HeaderWords(kind, |refs|, style) + refs)
    requires kind.ListKind? ==> |refs| == 2
    ensures var t := Pointer(kind, at);
            if kind.TupleKind? && style.AsWritten? then !HasBlock(m, t)
            else HasBlock(m, t) && KindOf(t) == kind && Fields(m, t) == refs
  {
    HoldsSplit(m, at, HeaderWords(kind, |refs|, style), refs);
    if kind.TupleKind? {
      assert m.words[at - m.base] == m.words[at - m.base..at - m.base + 1][0];
    }
  }

  /** Where child `k` of a serialized sequence stands. */
  lemma {:induction false} KidLayout(m: Space, vs: seq<Value>, at: nat, style: HeaderStyle, k: nat) returns (a: nat)
    requires k < |vs| && Holds(m, at, LayoutAll(vs, at, style).words)
    ensures LayoutAll(vs, at, style).refs[k] == Layout(vs[k], a, style).ref
    ensures Holds(m, a, Layout(vs[k], a, style).words)
    ensures at <= a && a + Size(vs[k]) <= at + SizeAll(vs)
    decreases |vs|
  {
    hide Layout;
    var n := |vs| - 1;
    var first := LayoutAll(vs[..n], at, style);
    var last := Layout(vs[n], at + |first.words|, style);
    assert LayoutAll(vs, at, style) == Copies(first.refs + [last.ref], first.words + last.words);
    HoldsSplit(m, at, first.words, last.words);
    if k == n {
      a := at + |first.words|;
    } else {
      a := KidLayout(m, vs[..n], at, style, k);
      assert vs[..n][k] == vs[k] && first.refs[k] == LayoutAll(vs, at, style).refs[k];
    }
  }

  /** Reading back a serialization: with tagged headers every value survives; with the
      headers as written exactly the values without tuples do. */
  lemma {:induction false} LayoutRepresents(m: Space, v: Value, at: nat, style: HeaderStyle)
    requires WellShaped(v) && Holds(m, at, Layout(v, at, style).words)
    ensures Represents(m, Layout(v, at, style).ref, v) <==> style.Tagged? || TupleFree(v)
    decreases v
  {
    hide LayoutAll, Fields, HasBlock, HeaderWords;
    if v.Block? {
      var next := at + HeaderLen(v.kind) + |v.kids|;
      var rest := LayoutAll(v.kids, next, style);
      HoldsSplit(m, at, HeaderWords(v.kind, |v.kids|, style) + rest.refs, rest.words);
      BlockFields(m, v.kind, rest.refs, at, style);
      forall k | 0 <= k < |v.kids|
        ensures Represents(m, rest.refs[k], v.kids[k]) <==> style.Tagged? || TupleFree(v.kids[k])
      {
        var a := KidLayout(m, v.kids, next, style, k);
        LayoutRepresents(m, v.kids[k], a, style);
      }
    }
  }

  // ---------- room ----------

  predicate PointsInto(m: Space, t: Term) {
    (t.List? || t.Boxed?) && m.base <= t.addr < m.base + |m.words|
  }

  predicate Leaks(m: Space, ts: seq<Term>) {
    exists k :: 0 <= k < |ts| && PointsInto(m, ts[k])
  }

  lemma LeaksConcat(m: Space, ts: seq<Term>, us: seq<Term>)
    ensures Leaks(m, ts + us) <==> Leaks(m, ts) || Leaks(m, us)
  {
    if Leaks(m, ts) {
      var k :| 0 <= k < |ts| && PointsInto(m, ts[k]);
      assert (ts + us)[k] == ts[k];
    }
    if Leaks(m, us) {
      var k :| 0 <= k < |us| && PointsInto(m, us[k]);
      assert (ts + us)[|ts| + k] == us[k];
    }
  }

  /** A copy refers back to the old space exactly when the value did not fit. */
  lemma {:induction false} CopyLeaksIffNoRoom(m: Space, t: Term, v: Value, at: nat, limit: nat, style: HeaderStyle)
    requires Represents(m, t, v) && at <= limit
    requires limit <= m.base || m.base + |m.words| <= at
    ensures var c := CopyTerm(m, t, at, limit, style);
            at + Size(v) <= limit <==> !PointsInto(m, c.ref) && !Leaks(m, c.words)
    decreases v
  {
    hide CopyAll, HeaderWords, HasBlock, Fields, Leaks;
    if v.Block? {
      var fields := Fields(m, t);
      BlockPointsInto(m, t);
      var next := at + HeaderLen(v.kind) + |fields|;
      if next <= limit {
        CopyAllLeaksIffNoRoom(m, fields, v.kids, next, limit, style);
        var rest := CopyAll(m, fields, next, limit, style);
        LeaksBlock(m, v.kind, |fields|, style, rest.refs, rest.words);
      } else {
        assert CopyTerm(m, t, at, limit, style).ref == t;
      }
    } else {
      NoBlock(m, t);
    }
  }

  lemma BlockPointsInto(m: Space, t: Term)
    requires HasBlock(m, t)
    ensures PointsInto(m, t) && (t.List? ==> |Fields(m, t)| == 2)
  {
  }

  lemma NoBlock(m: Space, t: Term)
    requires IsImmediate(t)
    ensures !HasBlock(m, t) && !PointsInto(m, t) && !Leaks(m, [])
  {
  }

  lemma LeaksBlock(m: Space, kind: Kind, arity: nat, style: HeaderStyle, ts: seq<Term>, us: seq<Term>)
    ensures Leaks(m, HeaderWords(kind, arity, style) + ts + us) <==> Leaks(m, ts) || Leaks(m, us)
  {
    var head := HeaderWords(kind, arity, style);
    LeaksConcat(m, head, ts);
    LeaksConcat(m, head + ts, us);
    assert !Leaks(m, head);
  }

  lemma LeaksSnoc(m: Space, ts: seq<Term>, t: Term)
    ensures Leaks(m, ts + [t]) <==> Leaks(m, ts) || PointsInto(m, t)
  {
    LeaksConcat(m, ts, [t]);
    if PointsInto(m, t) {
      assert PointsInto(m, [t][0]);
    }
  }

  lemma {:induction false} CopyAllLeaksIffNoRoom(m: Space, ts: seq<Term>, vs: seq<Value>, at: nat, limit: nat, style: HeaderStyle)
    requires RepresentsAll(m, ts, vs) && at <= limit
    requires limit <= m.base || m.base + |m.words| <= at
    ensures var c := CopyAll(m, ts, at, limit, style);
            at + SizeAll(vs) <= limit <==> !Leaks(m, c.refs) && !Leaks(m, c.words)
    decreases vs
  {
    hide CopyTerm, Represents, Layout, LayoutAll;
    if vs != [] {
      var n := |vs| - 1;
      var first := CopyAll(m, ts[..n], at, limit, style);
      var last := CopyTerm(m, ts[n], at + |first.words|, limit, style);
      assert CopyAll(m, ts, at, limit, style) == Copies(first.refs + [last.ref], first.words + last.words);
      CopyAllLeaksIffNoRoom(m, ts[..n], vs[..n], at, limit, style);
      LeaksSnoc(m, first.refs, last.ref);
      LeaksConcat(m, first.words, last.words);
      if at + SizeAll(vs[..n]) <= limit {
        CopyAllIsLayout(m, ts[..n], vs[..n], at, limit, style);
        CopyLeaksIffNoRoom(m, ts[n], vs[n], at + |first.words|, limit, style);
      }
    }
  }
}
