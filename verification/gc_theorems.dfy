/** What a collection keeps, how much room it needs, and when the code as written keeps it. */
module GcTheorems {
  import opened BeamCore
  import opened HeapValues

  /** With room a collection keeps the value of every root.  The new heap is the pre-order
      serialization of those values: nothing about the old heap shows in it. */
  lemma CollectionPreservesMeaning(m: Space, roots: seq<Term>, vs: seq<Value>, at: Address, cap: nat)
    requires RepresentsAll(m, roots, vs) && SizeAll(vs) <= cap
    ensures var c := CopyAll(m, roots, at, at + cap, Tagged);
            && c == LayoutAll(vs, at, Tagged)
            && |c.words| == SizeAll(vs)
            && RepresentsAll(Space(at, c.words), c.refs, vs)
  {
    hide CopyAll, Represents, Layout;
    CopyAllIsLayout(m, roots, vs, at, at + cap, Tagged);
    var c := LayoutAll(vs, at, Tagged);
    var m' := Space(at, c.words);
    assert Holds(m', at, c.words);
    forall k | 0 <= k < |vs| ensures Represents(m', c.refs[k], vs[k]) {
      RepresentedIsWellShaped(m, roots[k], vs[k]);
      var a := KidLayout(m', vs, at, Tagged, k);
      LayoutRepresents(m', vs[k], a, Tagged);
    }
  }

  /** With the headers as written, a root keeps its value exactly when no tuple occurs in it. */
  lemma AsWrittenKeepsTupleFree(m: Space, roots: seq<Term>, vs: seq<Value>, at: Address, cap: nat, k: nat)
    requires RepresentsAll(m, roots, vs) && SizeAll(vs) <= cap && k < |vs|
    ensures var c := CopyAll(m, roots, at, at + cap, AsWritten);
            Represents(Space(at, c.words), c.refs[k], vs[k]) <==> TupleFree(vs[k])
  {
    hide CopyAll, Represents, Layout;
    CopyAllIsLayout(m, roots, vs, at, at + cap, AsWritten);
    var m' := Space(at, LayoutAll(vs, at, AsWritten).words);
    RepresentedIsWellShaped(m, roots[k], vs[k]);
    var a := KidLayout(m', vs, at, AsWritten, k);
    LayoutRepresents(m', vs[k], a, AsWritten);
  }

  /** The smallest loss: a one-element tuple comes back as a pointer no test calls a tuple. */
  lemma AsWrittenLosesTuple(base: Address, at: Address)
    ensures var m := Space(base, [Header(1), Small(5)]);
            var c := CopyTerm(m, Boxed(base), at, at + 2, AsWritten);
            && IsTuple(m, Boxed(base))
            && c == Copy(Boxed(at), [Small(1), Small(5)])
            && !IsTuple(Space(at, c.words), c.ref)
  {
    var m := Space(base, [Header(1), Small(5)]);
    var fields := Fields(m, Boxed(base));
    assert fields == [Small(5)];
    assert MakeSmall(1) == Small(1);
    assert CopyAll(m, [Small(5)], at + 2, at + 2, AsWritten) == Copies([Small(5)], []) by {
      OneImmediate(m, Small(5), at + 2);
    }
    hide CopyAll;
  }

  lemma OneImmediate(m: Space, t: Term, at: nat)
    requires t.Small?
    ensures CopyAll(m, [t], at, at, AsWritten) == Copies([t], [])
  {
    assert [t][..0] == [];
    assert CopyAll(m, [], at, at, AsWritten) == Copies([], []);
    assert CopyTerm(m, t, at, at, AsWritten) == Copy(t, []);
  }

  // ---------- room ----------

  predicate Within(t: Term, lo: nat, hi: nat) {
    t.List? || t.Boxed? ==> lo <= t.addr < hi
  }

  predicate AllWithin(ts: seq<Term>, lo: nat, hi: nat) {
    forall t :: t in ts ==> Within(t, lo, hi)
  }

  /** Every pointer a serialization holds leads into the serialization. */
  lemma {:induction false} LayoutPointsInside(v: Value, at: nat, limit: nat, style: HeaderStyle)
    requires WellShaped(v) && at + Size(v) <= limit
    ensures Within(Layout(v, at, style).ref, at, limit) && AllWithin(Layout(v, at, style).words, at, limit)
    decreases v
  {
    if v.Block? {
      LayoutAllPointsInside(v.kids, at + HeaderLen(v.kind) + |v.kids|, limit, style);
    }
  }

  lemma {:induction false} LayoutAllPointsInside(vs: seq<Value>, at: nat, limit: nat, style: HeaderStyle)
    requires (forall k :: 0 <= k < |vs| ==> WellShaped(vs[k])) && at + SizeAll(vs) <= limit
    ensures AllWithin(LayoutAll(vs, at, style).refs, at, limit) && AllWithin(LayoutAll(vs, at, style).words, at, limit)
    decreases vs
  {
    hide Layout;
    if vs != [] {
      var n := |vs| - 1;
      LayoutAllPointsInside(vs[..n], at, limit, style);
      LayoutPointsInside(vs[n], at + SizeAll(vs[..n]), limit, style);
    }
  }

  /** Heap and stack stay apart and nothing refers to the released space exactly when the
      sizes of the roots' values sum to at most `stackTop`. */
  lemma CollectionRoomExact(m: Space, roots: seq<Term>, vs: seq<Value>, at: nat, cap: nat, stackTop: nat, style: HeaderStyle)
    requires RepresentsAll(m, roots, vs) && stackTop <= cap
    requires at + cap <= m.base || m.base + |m.words| <= at
    ensures var c := CopyAll(m, roots, at, at + cap, style);
            |c.words| <= stackTop && !Leaks(m, c.refs) && !Leaks(m, c.words) <==> SizeAll(vs) <= stackTop
  {
    hide CopyAll, Represents, Leaks;
    CopyAllLeaksIffNoRoom(m, roots, vs, at, at + cap, style);
    if SizeAll(vs) <= cap {
      CopyAllIsLayout(m, roots, vs, at, at + cap, style);
    }
  }

  /** A second collection writes the same serialization, moved to its own base. */
  lemma CollectTwice(m: Space, roots: seq<Term>, vs: seq<Value>, at: Address, at': Address, cap: nat)
    requires RepresentsAll(m, roots, vs) && SizeAll(vs) <= cap
    ensures var c := CopyAll(m, roots, at, at + cap, Tagged);
            var c' := CopyAll(Space(at, c.words), c.refs, at', at' + cap, Tagged);
            c' == LayoutAll(vs, at', Tagged) && |c'.words| == |c.words| && (at' == at ==> c' == c)
  {
    hide CopyAll, Represents;
    CollectionPreservesMeaning(m, roots, vs, at, cap);
    var c := CopyAll(m, roots, at, at + cap, Tagged);
    CollectionPreservesMeaning(Space(at, c.words), c.refs, vs, at', cap);
  }

  // ---------- sharing ----------

  function Cells(addr: nat, n: nat): multiset<nat> {
    if n == 0 then multiset{} else Cells(addr, n - 1) + multiset{addr + n - 1}
  }

  /** The heap words met when a value is unfolded, with multiplicity. */
  ghost function Footprint(m: Space, t: Term, v: Value): multiset<nat>
    requires Represents(m, t, v)
    decreases v
  {
    match v
    case Imm(_) => multiset{}
    case Block(kind, kids) =>
      Cells(t.addr, HeaderLen(kind) + |kids|) + FootprintAll(m, Fields(m, t), kids)
  }

  ghost function FootprintAll(m: Space, ts: seq<Term>, vs: seq<Value>): multiset<nat>
    requires RepresentsAll(m, ts, vs)
    decreases vs
  {
    if vs == [] then multiset{}
    else FootprintAll(m, ts[..|vs| - 1], vs[..|vs| - 1]) + Footprint(m, ts[|vs| - 1], vs[|vs| - 1])
  }

  ghost predicate Inside(ms: multiset<nat>, m: Space) {
    forall a :: a in ms ==> m.base <= a < m.base + |m.words|
  }

  /** No heap word is reached twice from the roots. */
  ghost predicate Unshared(m: Space, roots: seq<Term>, vs: seq<Value>)
    requires RepresentsAll(m, roots, vs)
  {
    forall a :: FootprintAll(m, roots, vs)[a] <= 1
  }

  lemma {:induction false} CellsCount(addr: nat, n: nat)
    ensures |Cells(addr, n)| == n && forall a :: a in Cells(addr, n) ==> addr <= a < addr + n
  {
    if n > 0 {
      CellsCount(addr, n - 1);
    }
  }

  lemma {:induction false} FootprintSize(m: Space, t: Term, v: Value)
    requires Represents(m, t, v)
    ensures |Footprint(m, t, v)| == Size(v) && Inside(Footprint(m, t, v), m)
    decreases v
  {
    hide FootprintAll, Cells;
    if v.Block? {
      var cells := Cells(t.addr, HeaderLen(v.kind) + |v.kids|);
      CellsCount(t.addr, HeaderLen(v.kind) + |v.kids|);
      var rest := FootprintAll(m, Fields(m, t), v.kids);
      FootprintAllSize(m, Fields(m, t), v.kids);
      assert Footprint(m, t, v) == cells + rest;
      assert t.addr >= m.base && t.addr + HeaderLen(v.kind) + |v.kids| <= m.base + |m.words|;
    }
  }

  lemma {:induction false} FootprintAllSize(m: Space, ts: seq<Term>, vs: seq<Value>)
    requires RepresentsAll(m, ts, vs)
    ensures |FootprintAll(m, ts, vs)| == SizeAll(vs) && Inside(FootprintAll(m, ts, vs), m)
    decreases vs
  {
    hide Footprint, Represents;
    if vs != [] {
      var n := |vs| - 1;
      FootprintAllSize(m, ts[..n], vs[..n]);
      FootprintSize(m, ts[n], vs[n]);
    }
  }

  lemma {:induction false} DistinctInRange(ms: multiset<nat>, lo: nat, n: nat)
    requires forall a :: a in ms ==> lo <= a < lo + n
    requires forall a :: ms[a] <= 1
    ensures |ms| <= n
    decreases n
  {
    if n == 0 {
      assert ms == multiset{};
    } else {
      var rest := ms[lo + n - 1 := 0];
      DistinctInRange(rest, lo, n - 1);
      assert ms == rest + (if ms[lo + n - 1] == 1 then multiset{lo + n - 1} else multiset{});
    }
  }

  /** When nothing is shared there is always room, and the heap does not grow. */
  lemma UnsharedHasRoom(m: Space, roots: seq<Term>, vs: seq<Value>, at: nat, cap: nat)
    requires RepresentsAll(m, roots, vs) && Unshared(m, roots, vs) && |m.words| <= cap
    ensures SizeAll(vs) <= |m.words|
    ensures |CopyAll(m, roots, at, at + cap, Tagged).words| <= |m.words|
  {
    hide FootprintAll, CopyAll, Represents;
    FootprintAllSize(m, roots, vs);
    DistinctInRange(FootprintAll(m, roots, vs), m.base, |m.words|);
    CopyAllIsLayout(m, roots, vs, at, at + cap, Tagged);
  }

  lemma CellOfTwo(base: Address, m: Space, v: Value)
    requires m == Space(base, [Small(1), Nil]) && v == Block(ListKind, [Imm(Small(1)), Imm(Nil)])
    ensures Represents(m, List(base), v)
  {
    assert Represents(m, Small(1), v.kids[0]) && Represents(m, Nil, v.kids[1]);
    assert Fields(m, List(base)) == [Small(1), Nil];
  }

  lemma SizeOfTwo(u: Value, v: Value)
    ensures SizeAll([u, v]) == Size(u) + Size(v)
  {
    hide Size;
    assert [u, v][..1] == [u] && [u][..0] == [];
    assert SizeAll([u]) == SizeAll([u][..0]) + Size(u);
  }

  lemma TwoPointers(m: Space, t: Term, v: Value)
    requires Represents(m, t, v)
    ensures RepresentsAll(m, [t, t], [v, v])
  {
    hide Represents;
  }

  /** With sharing it can fail: one two-word cell met from two roots needs four words. */
  lemma SharingNeedsRoom(base: Address)
    ensures var m := Space(base, [Small(1), Nil]);
            var v := Block(ListKind, [Imm(Small(1)), Imm(Nil)]);
            RepresentsAll(m, [List(base), List(base)], [v, v]) && SizeAll([v, v]) == 4 > |m.words|
  {
    hide Represents, RepresentsAll, SizeAll;
    var m := Space(base, [Small(1), Nil]);
    var v := Block(ListKind, [Imm(Small(1)), Imm(Nil)]);
    CellOfTwo(base, m, v);
    TwoPointers(m, List(base), v);
    SizeOfTwo(Imm(Small(1)), Imm(Nil));
    SizeOfTwo(v, v);
  }
}
