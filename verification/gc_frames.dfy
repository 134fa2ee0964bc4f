/** Collecting a process that has call frames on its stack. */
module GcFrames {
  import opened BeamCore
  import opened HeapValues
  import opened GcTheorems
  import opened BeamEmu
  import opened EmuFrames

  /** The words of a stack as values. */
  function Imms(ws: seq<Term>): (vs: seq<Value>)
    ensures |vs| == |ws| && forall k :: 0 <= k < |ws| ==> vs[k] == Imm(ws[k])
  {
    seq(|ws|, k requires 0 <= k < |ws| => Imm(ws[k]))
  }

  /** A return address the collector takes for a pointer: the copier looks at its low two bits. */
  predicate LooksLikePointer(cp: nat) {
    cp % 4 == 1 || cp % 4 == 2
  }

  /** The words of frames are immediates exactly when no saved address looks like a pointer. */
  lemma {:induction false} FrameWordsImmediate(fs: seq<Frame>)
    ensures (forall w :: w in Enc(fs) ==> IsImmediate(w)) <==> forall k :: 0 <= k < |fs| ==> !LooksLikePointer(fs[k].cp)
    decreases |fs|
  {
    if fs != [] {
      var n := |fs| - 1;
      var older := Enc(fs[..n]);
      FrameWordsImmediate(fs[..n]);
      var top := FrameWords(fs[n].cp, fs[n].n);
      assert Enc(fs) == top + older;
      assert top[fs[n].n] == Raw(fs[n].cp) && IsImmediate(Raw(0));
      hide Enc;
      assert forall w :: w in top ==> w == Raw(0) || w == Raw(fs[n].cp);
      assert Raw(fs[n].cp) in top;
      assert forall w :: w in top + older <==> w in top || w in older;
      assert forall k :: 0 <= k < n ==> fs[..n][k] == fs[k];
    }
  }

  lemma {:induction false} ImmediatesAppended(vs: seq<Value>, ws: seq<Term>, at: nat, style: HeaderStyle)
    ensures SizeAll(vs + Imms(ws)) == SizeAll(vs)
    ensures LayoutAll(vs + Imms(ws), at, style) == Copies(LayoutAll(vs, at, style).refs + ws, LayoutAll(vs, at, style).words)
    decreases |ws|
  {
    hide LayoutAll, SizeAll;
    if ws == [] {
      assert vs + Imms(ws) == vs;
      assert LayoutAll(vs, at, style).refs + ws == LayoutAll(vs, at, style).refs;
    } else {
      var n := |ws| - 1;
      var all, rest := vs + Imms(ws), vs + Imms(ws[..n]);
      assert all == rest + [Imm(ws[n])];
      ImmediatesAppended(vs, ws[..n], at, style);
      OneImmediateAppended(rest, ws[n], at, style);
      assert ws == ws[..n] + [ws[n]];
    }
  }

  lemma OneImmediateAppended(vs: seq<Value>, w: Term, at: nat, style: HeaderStyle)
    ensures SizeAll(vs + [Imm(w)]) == SizeAll(vs)
    ensures LayoutAll(vs + [Imm(w)], at, style) == Copies(LayoutAll(vs, at, style).refs + [w], LayoutAll(vs, at, style).words)
  {
    var all := vs + [Imm(w)];
    assert all[..|all| - 1] == vs && all[|all| - 1] == Imm(w);
    var first := LayoutAll(vs, at, style);
    assert first.words + [] == first.words;
  }

  /** A collection leaves the frames on the stack exactly as they are, saved addresses and all,
      needs no room for them, and keeps the value of every register, provided no saved address
      looks like a pointer. */
  lemma FramesSurvive(m: Space, xs: seq<Term>, vs: seq<Value>, fs: seq<Frame>, at: Address, cap: nat)
    requires RepresentsAll(m, xs, vs) && SizeAll(vs) <= cap
    requires forall k :: 0 <= k < |fs| ==> !LooksLikePointer(fs[k].cp)
    ensures var c := CopyAll(m, xs + Enc(fs), at, at + cap, Tagged);
            && c.refs[|xs|..] == Enc(fs)
            && |c.words| == SizeAll(vs)
            && RepresentsAll(Space(at, c.words), c.refs[..|xs|], vs)
  {
    hide CopyAll, Represents, Layout, LayoutAll, Enc, SizeAll;
    var ws := Enc(fs);
    FrameWordsImmediate(fs);
    ImmediatesAppended(vs, ws, at, Tagged);
    assert RepresentsAll(m, xs + ws, vs + Imms(ws)) by {
      forall k | 0 <= k < |ws| ensures Represents(m, ws[k], Imms(ws)[k]) {
        assert ws[k] in ws;
        ImmediateDenotesItself(m, ws[k]);
      }
    }
    CollectionPreservesMeaning(m, xs + ws, vs + Imms(ws), at, cap);
    var c := CopyAll(m, xs + ws, at, at + cap, Tagged);
    assert |LayoutAll(vs, at, Tagged).refs| == |vs| == |xs|;
    forall k | 0 <= k < |vs| ensures Represents(Space(at, c.words), c.refs[..|xs|][k], vs[k]) {
      assert (vs + Imms(ws))[k] == vs[k];
    }
  }

  lemma ImmediateDenotesItself(m: Space, w: Term)
    requires IsImmediate(w)
    ensures Represents(m, w, Imm(w))
  {
  }
}
