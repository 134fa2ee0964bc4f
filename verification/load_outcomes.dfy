/** What becomes of a file, for every sequence of bytes: which are loaded, which rejected, and
    which make the loader read behind its buffer. */
module LoadOutcomes {
  import opened BeamCore
  import opened ByteStrings
  import opened BeamLoad

  // ---------- one table ----------

  /** `n` encoded names stand at position `p`. */
  ghost predicate NamesStand(bs: seq<Byte>, p: nat, n: nat, wide: bool) {
    exists names :: |names| == n && NamesFit(names, wide) && Stands(bs, p, EncodeNames(names, wide))
  }

  lemma StandsJoin(bs: seq<Byte>, p: nat, ws: seq<Byte>, us: seq<Byte>)
    requires Stands(bs, p, ws) && Stands(bs, p + |ws|, us)
    ensures Stands(bs, p, ws + us)
  {
    assert bs[p..p + |ws + us|] == bs[p..p + |ws|] + bs[p + |ws|..p + |ws| + |us|];
  }

  lemma LengthStands(bs: seq<Byte>, p: nat, wide: bool)
    requires p + LengthSize(wide) <= |bs|
    ensures ReadLength(bs, p, wide) < (if wide then 0x1_0000 else 0x100)
    ensures Stands(bs, p, Bytes(ReadLength(bs, p, wide), LengthSize(wide)))
  {
    var n := ReadLength(bs, p, wide);
    if wide {
      assert Bytes(n, 2) == Bytes(n / 256, 1) + [n % 256] && Bytes(n / 256, 1) == [n / 256 % 256];
      assert bs[p..p + 2] == [bs[p], bs[p + 1]];
    } else {
      assert Bytes(n, 1) == [n % 256] && bs[p..p + 1] == [bs[p]];
    }
  }

  /** The names read are encoded where they were read. */
  lemma {:induction false} NamesReadStand(bs: seq<Byte>, p: nat, n: nat, wide: bool)
    requires p <= |bs| && ReadAtoms(bs, p, n, wide).Some?
    ensures var names := ReadAtoms(bs, p, n, wide).value;
            |names| == n && NamesFit(names, wide) && Stands(bs, p, EncodeNames(names, wide))
    decreases n
  {
    hide Bytes, ReadLength;
    if n > 0 {
      var w, len := LengthSize(wide), ReadLength(bs, p, wide);
      var q := p + w;
      var name := bs[q..q + len];
      NamesReadStand(bs, q + len, n - 1, wide);
      var rest := ReadAtoms(bs, q + len, n - 1, wide).value;
      LengthStands(bs, p, wide);
      StandsJoin(bs, p, Bytes(len, w), name);
      StandsJoin(bs, p, Bytes(len, w) + name, EncodeNames(rest, wide));
      var names := [name] + rest;
      assert names[0] == name && names[1..] == rest;
      assert ReadAtoms(bs, p, n, wide).value == names;
    }
  }

  /** The name loop stays in the buffer exactly when that many encoded names stand there. */
  lemma ReadAtomsExactly(bs: seq<Byte>, p: nat, n: nat, wide: bool)
    requires p <= |bs|
    ensures ReadAtoms(bs, p, n, wide).Some? <==> NamesStand(bs, p, n, wide)
  {
    hide ReadAtoms, EncodeNames, Stands, NamesFit;
    if ReadAtoms(bs, p, n, wide).Some? {
      NamesReadStand(bs, p, n, wide);
    }
    if NamesStand(bs, p, n, wide) {
      var names :| |names| == n && NamesFit(names, wide) && Stands(bs, p, EncodeNames(names, wide));
      ReadAtomsOf(bs, p, names, wide);
    }
  }

  predicate Oversized(bs: seq<Byte>, pos: nat) {
    pos + 4 <= |bs| && AtomCount(ReadU32(bs, pos)) > 100000
  }

  /** The count and as many names as it says are in the buffer. */
  ghost predicate TableWhole(bs: seq<Byte>, pos: nat, wide: bool) {
    && pos + 4 <= |bs|
    && AtomCount(ReadU32(bs, pos)) <= 100000
    && NamesStand(bs, pos + 4, AtomCount(ReadU32(bs, pos)), wide)
  }

  lemma TableOutcome(bs: seq<Byte>, pos: nat, wide: bool, f: FileRecord)
    ensures LoadAtoms(bs, pos, wide, f).Parsed? <==> TableWhole(bs, pos, wide)
    ensures LoadAtoms(bs, pos, wide, f).Rejected? <==> Oversized(bs, pos)
  {
    hide ReadAtoms, NamesStand, ReadU32, WithAtoms;
    if pos + 4 <= |bs| {
      ReadAtomsExactly(bs, pos + 4, AtomCount(ReadU32(bs, pos)), wide);
    }
  }

  // ---------- the walk ----------

  /** A chunk header stands at `pos` and its body is in the buffer. */
  predicate ChunkFits(bs: seq<Byte>, pos: nat) {
    pos + 8 <= |bs| && pos + 8 + ReadU32(bs, pos + 4) <= |bs|
  }

  function NextChunk(bs: seq<Byte>, pos: nat): nat
    requires ChunkFits(bs, pos)
  {
    pos + 8 + Aligned(ReadU32(bs, pos + 4))
  }

  predicate IsAtomChunk(bs: seq<Byte>, pos: nat)
    requires ChunkFits(bs, pos)
  {
    bs[pos..pos + 4] == ATOM || bs[pos..pos + 4] == ATU8
  }

  /** An atom chunk whose table is not whole. */
  ghost predicate BadTable(bs: seq<Byte>, pos: nat)
    requires ChunkFits(bs, pos)
  {
    IsAtomChunk(bs, pos) && !TableWhole(bs, pos + 8, bs[pos..pos + 4] == ATU8)
  }

  /** `k` chunks behind `pos` with no bad table among them stands one with a bad table, which
      is oversized or not. */
  ghost predicate BadAt(bs: seq<Byte>, pos: nat, k: nat, oversized: bool)
    decreases k
  {
    && ChunkFits(bs, pos)
    && if k == 0 then BadTable(bs, pos) && (Oversized(bs, pos + 8) <==> oversized)
       else !BadTable(bs, pos) && BadAt(bs, NextChunk(bs, pos), k - 1, oversized)
  }

  lemma ChunkOutcome(bs: seq<Byte>, pos: nat, f: FileRecord)
    requires ChunkFits(bs, pos)
    ensures var r := LoadChunk(bs, bs[pos..pos + 4], pos + 8, ReadU32(bs, pos + 4), f);
            && (r.Parsed? <==> !BadTable(bs, pos))
            && (r.Rejected? <==> BadTable(bs, pos) && Oversized(bs, pos + 8))
            && Walk(bs, pos, f) == if r.Parsed? then Walk(bs, NextChunk(bs, pos), r.file) else r
  {
    hide LoadAtoms, TableWhole, Oversized, ReadU32, Padding, Aligned, WithChunk;
    PaddingAligns(ReadU32(bs, pos + 4));
    TableOutcome(bs, pos + 8, bs[pos..pos + 4] == ATU8, f);
    NotBoth(bs, pos + 8, bs[pos..pos + 4] == ATU8);
  }

  lemma NotBoth(bs: seq<Byte>, pos: nat, wide: bool)
    ensures !(Oversized(bs, pos) && TableWhole(bs, pos, wide))
  {
  }

  lemma {:induction false} WalkOutcome(bs: seq<Byte>, pos: nat, f: FileRecord)
    ensures Walk(bs, pos, f) == PastEnd <==> exists k: nat :: BadAt(bs, pos, k, false)
    ensures Walk(bs, pos, f) == Rejected <==> exists k: nat :: BadAt(bs, pos, k, true)
    decreases |bs| - pos
  {
    if !ChunkFits(bs, pos) {
      hide ReadU32;
      assert Walk(bs, pos, f) == Parsed(f);
    } else {
      hide Walk, LoadChunk, BadTable, Oversized, ReadU32, NextChunk;
      ChunkOutcome(bs, pos, f);
      var r := LoadChunk(bs, bs[pos..pos + 4], pos + 8, ReadU32(bs, pos + 4), f);
      if r.Parsed? {
        Onward(bs, pos);
        WalkOutcome(bs, NextChunk(bs, pos), r.file);
        BadBehind(bs, pos, false);
        BadBehind(bs, pos, true);
      } else {
        assert BadAt(bs, pos, 0, r.Rejected?);
        BadHere(bs, pos, !r.Rejected?);
      }
    }
  }

  lemma Onward(bs: seq<Byte>, pos: nat)
    requires ChunkFits(bs, pos)
    ensures pos < NextChunk(bs, pos) && pos < |bs|
  {
  }

  lemma BadHere(bs: seq<Byte>, pos: nat, oversized: bool)
    requires ChunkFits(bs, pos) && BadTable(bs, pos) && (Oversized(bs, pos + 8) <==> !oversized)
    ensures !exists k: nat :: BadAt(bs, pos, k, oversized)
  {
  }

  lemma OneMoreChunk(bs: seq<Byte>, pos: nat, k: nat, n: nat, oversized: bool)
    requires ChunkFits(bs, pos) && !BadTable(bs, pos) && n == k + 1
    ensures BadAt(bs, pos, n, oversized) <==> BadAt(bs, NextChunk(bs, pos), k, oversized)
  {
    hide BadTable, NextChunk;
  }

  lemma BadBehind(bs: seq<Byte>, pos: nat, oversized: bool)
    requires ChunkFits(bs, pos) && !BadTable(bs, pos)
    ensures (exists k: nat :: BadAt(bs, pos, k, oversized)) <==> exists k: nat :: BadAt(bs, NextChunk(bs, pos), k, oversized)
  {
    if k: nat :| BadAt(bs, pos, k, oversized) {
      hide BadTable, NextChunk;
      OneMoreChunk(bs, pos, k - 1, k, oversized);
    } else if k: nat :| BadAt(bs, NextChunk(bs, pos), k, oversized) {
      hide BadAt;
      OneMoreChunk(bs, pos, k, k + 1, oversized);
    }
  }

  predicate HasHeader(bs: seq<Byte>) {
    |bs| >= 12 && bs[0..4] == FOR1 && bs[8..12] == BEAM
  }

  /** Every buffer: it makes the loader read behind its end exactly when behind chunks that are
      in order comes an atom chunk whose count or names the buffer does not hold; it is rejected
      exactly for a bad header or an oversized count there; any other buffer is loaded. */
  lemma ParseOutcome(bs: seq<Byte>)
    ensures Parse(bs) == PastEnd <==> HasHeader(bs) && exists k: nat :: BadAt(bs, 12, k, false)
    ensures Parse(bs) == Rejected <==> !HasHeader(bs) || exists k: nat :: BadAt(bs, 12, k, true)
  {
    hide Walk, BadAt;
    if HasHeader(bs) {
      WalkOutcome(bs, 12, EMPTY);
    }
  }

  /** Twenty bytes that end in an atom chunk of length zero: its count would stand behind them. */
  lemma EmptyAtomChunkReadsPastEnd()
    ensures var bs := FOR1 + [0, 0, 0, 0] + BEAM + ATOM + [0, 0, 0, 0]; |bs| == 20 && Parse(bs) == PastEnd
  {
    var bs: seq<Byte> := FOR1 + [0, 0, 0, 0] + BEAM + ATOM + [0, 0, 0, 0];
    assert bs[0..4] == FOR1 && bs[8..12] == BEAM && bs[12..16] == ATOM;
    assert ReadU32(bs, 16) == 0;
    assert BadAt(bs, 12, 0, false);
    ParseOutcome(bs);
  }
}
