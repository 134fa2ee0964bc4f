/** The BEAM file loader: a walk over the chunks of a file, recording the atom names and where
    the known chunks are. */
module BeamLoad {
  import opened BeamCore
  import opened ByteStrings

  const FOR1: seq<Byte> := [70, 79, 82, 49]
  const BEAM: seq<Byte> := [66, 69, 65, 77]
  const ATOM: seq<Byte> := [65, 116, 111, 109]
  const ATU8: seq<Byte> := [65, 116, 85, 56]
  const CODE: seq<Byte> := [67, 111, 100, 101]
  const LITT: seq<Byte> := [76, 105, 116, 84]
  const EXPT: seq<Byte> := [69, 120, 112, 84]
  const IMPT: seq<Byte> := [73, 109, 112, 84]
  const STRT: seq<Byte> := [83, 116, 114, 84]

  const MAX_ATOMS: nat := 100000
  const MODULE_NAME_SIZE: nat := 63

  /** What the loader keeps of a file; a chunk not seen is `None`. */
  datatype FileRecord = FileRecord(
    atoms: seq<Name>, moduleName: Name,
    code: Option<seq<Byte>>, lit: Option<seq<Byte>>, exp: Option<seq<Byte>>,
    imp: Option<seq<Byte>>, str: Option<seq<Byte>>)

  const EMPTY := FileRecord([], [], None, None, None, None, None)

  /** `PastEnd`: the atom table of a malformed file makes the loader read behind the buffer. */
  datatype Outcome = Rejected | PastEnd | Parsed(file: FileRecord)

  // ---------- the walk as a function ----------

  /** The atom count is the absolute value of a signed field. */
  function AtomCount(field: nat): nat {
    if field < 0x8000_0000 then field else if field < UINT32_SPAN then UINT32_SPAN - field else 0
  }

  function LengthSize(wide: bool): nat {
    if wide then 2 else 1
  }

  function ReadLength(bs: seq<Byte>, p: nat, wide: bool): nat
    requires p + LengthSize(wide) <= |bs|
  {
    if wide then var high: nat := bs[p]; high * 256 + bs[p + 1] else bs[p]
  }

  /** `n` names, each behind its length; `None` when they run over the end of the buffer. */
  function ReadAtoms(bs: seq<Byte>, p: nat, n: nat, wide: bool): (r: Option<seq<Name>>)
    ensures r.Some? ==> |r.value| == n
    decreases n
  {
    if n == 0 then Some([])
    else if p + LengthSize(wide) > |bs| then None
    else
      var q, len := p + LengthSize(wide), ReadLength(bs, p, wide);
      if q + len > |bs| then None
      else
        match ReadAtoms(bs, q + len, n - 1, wide)
        case None => None
        case Some(rest) => Some([bs[q..q + len]] + rest)
  }

  /** The name field holds 63 bytes and a zero. */
  function ModuleName(first: Name): Name {
    CString(first[..if |first| < MODULE_NAME_SIZE then |first| else MODULE_NAME_SIZE])
  }

  function WithAtoms(f: FileRecord, names: seq<Name>): FileRecord {
    f.(atoms := names, moduleName := if names == [] then f.moduleName else ModuleName(names[0]))
  }

  function LoadAtoms(bs: seq<Byte>, pos: nat, wide: bool, f: FileRecord): Outcome {
    if pos + 4 > |bs| then PastEnd
    else
      var n := AtomCount(ReadU32(bs, pos));
      if n > MAX_ATOMS then Rejected
      else
        match ReadAtoms(bs, pos + 4, n, wide)
        case None => PastEnd
        case Some(names) => Parsed(WithAtoms(f, names))
  }

  function WithChunk(f: FileRecord, id: seq<Byte>, body: seq<Byte>): FileRecord {
    if id == CODE then f.(code := Some(body))
    else if id == LITT then f.(lit := Some(body))
    else if id == EXPT then f.(exp := Some(body))
    else if id == IMPT then f.(imp := Some(body))
    else if id == STRT then f.(str := Some(body))
    else f
  }

  function Padding(len: nat): nat {
    (4 - len % 4) % 4
  }

  /** The smallest multiple of four from `len` up. */
  function Aligned(len: nat): nat {
    (len + 3) / 4 * 4
  }

  /** The walk goes on at the next multiple of four. */
  lemma PaddingAligns(len: nat)
    ensures Padding(len) < 4 && (len + Padding(len)) % 4 == 0 && len + Padding(len) == Aligned(len)
  {
    var q, r := len / 4, len % 4;
    assert len == 4 * q + r;
    assert (len + 3) / 4 == if r == 0 then q else q + 1;
  }

  function LoadChunk(bs: seq<Byte>, id: seq<Byte>, pos: nat, len: nat, f: FileRecord): Outcome
    requires pos + len <= |bs|
  {
    if id == ATOM || id == ATU8 then LoadAtoms(bs, pos, id == ATU8, f)
    else Parsed(WithChunk(f, id, bs[pos..pos + len]))
  }

  /** The chunks from position `pos`; a chunk that does not fit ends the walk. */
  function Walk(bs: seq<Byte>, pos: nat, f: FileRecord): Outcome
    decreases |bs| - pos
  {
    if pos + 8 > |bs| then Parsed(f)
    else
      var len := ReadU32(bs, pos + 4);
      if pos + 8 + len > |bs| then Parsed(f)
      else
        var r := LoadChunk(bs, bs[pos..pos + 4], pos + 8, len, f);
        if r.Parsed? then Walk(bs, pos + 8 + (len + Padding(len)), r.file) else r
  }

  function Parse(bs: seq<Byte>): Outcome {
    if |bs| < 12 || bs[0..4] != FOR1 || bs[8..12] != BEAM then Rejected else Walk(bs, 12, EMPTY)
  }

  // ---------- the walk in place ----------

  datatype Progress = Going | TooMany | Overrun

  /** The names in `done` were read on the way from `start` to `p`. */
  predicate AtomsReached(bs: seq<Byte>, start: nat, n: nat, wide: bool, done: seq<Name>, p: nat) {
    && |done| <= n
    && match ReadAtoms(bs, p, n - |done|, wide)
       case None => ReadAtoms(bs, start, n, wide) == None
       case Some(rest) => ReadAtoms(bs, start, n, wide) == Some(done + rest)
  }

  lemma ReachAtom(bs: seq<Byte>, start: nat, n: nat, wide: bool, done: seq<Name>, p: nat)
    requires AtomsReached(bs, start, n, wide, done, p) && |done| < n && p + LengthSize(wide) <= |bs|
    requires p + LengthSize(wide) + ReadLength(bs, p, wide) <= |bs|
    ensures var q, len := p + LengthSize(wide), ReadLength(bs, p, wide);
            AtomsReached(bs, start, n, wide, done + [bs[q..q + len]], q + len)
  {
    hide ReadLength, LengthSize;
    var q, len := p + LengthSize(wide), ReadLength(bs, p, wide);
    var name := bs[q..q + len];
    var next := ReadAtoms(bs, q + len, n - |done| - 1, wide);
    assert |done + [name]| == |done| + 1;
    if next.Some? {
      assert done + ([name] + next.value) == (done + [name]) + next.value;
    }
  }

  lemma AtomsOverrun(bs: seq<Byte>, start: nat, n: nat, wide: bool, done: seq<Name>, p: nat)
    requires AtomsReached(bs, start, n, wide, done, p) && |done| < n
    requires p + LengthSize(wide) > |bs| || p + LengthSize(wide) + ReadLength(bs, p, wide) > |bs|
    ensures ReadAtoms(bs, start, n, wide) == None
  {
  }

  lemma AtomsComplete(bs: seq<Byte>, start: nat, n: nat, wide: bool, done: seq<Name>, p: nat)
    requires AtomsReached(bs, start, n, wide, done, p) && |done| == n
    ensures ReadAtoms(bs, start, n, wide) == Some(done)
  {
    assert done + [] == done;
  }

  /** Fills a table of `n` names. */
  method ReadAtomTable(bs: seq<Byte>, start: nat, n: nat, wide: bool) returns (table: array<Name>, ok: bool)
    ensures fresh(table)
    ensures if ok then ReadAtoms(bs, start, n, wide) == Some(table[..]) else ReadAtoms(bs, start, n, wide) == None
  {
    hide ReadAtoms, ReadLength, AtomsReached;
    table := new Name[n](_ => []);
    var p: nat := start;
    var i := 0;
    assert AtomsReached(bs, start, n, wide, table[..0], p) by {
      AtomsStart(bs, start, n, wide);
      assert table[..0] == [];
    }
    while i < n
      invariant i <= n && AtomsReached(bs, start, n, wide, table[..i], p)
    {
      if p + LengthSize(wide) > |bs| || p + LengthSize(wide) + ReadLength(bs, p, wide) > |bs| {
        AtomsOverrun(bs, start, n, wide, table[..i], p);
        return table, false;
      }
      var len := ReadLength(bs, p, wide);
      ReachAtom(bs, start, n, wide, table[..i], p);
      p := p + LengthSize(wide);
      ghost var was := table[..i];
      table[i] := bs[p..p + len];
      assert table[..i + 1] == was + [bs[p..p + len]];
      p := p + len;
      i := i + 1;
    }
    AtomsComplete(bs, start, n, wide, table[..i], p);
    assert table[..i] == table[..];
    ok := true;
  }

  lemma AtomsStart(bs: seq<Byte>, start: nat, n: nat, wide: bool)
    ensures AtomsReached(bs, start, n, wide, [], start)
  {
    var r := ReadAtoms(bs, start, n, wide);
    if r.Some? {
      assert [] + r.value == r.value;
    }
  }

  class BeamFile {
    var moduleName: Name
    var atomTable: array<Name>
    var codeChunk: Option<seq<Byte>>
    var litChunk: Option<seq<Byte>>
    var expChunk: Option<seq<Byte>>
    var impChunk: Option<seq<Byte>>
    var strChunk: Option<seq<Byte>>

    ghost function Contents(): FileRecord
      reads this, atomTable
    {
      FileRecord(atomTable[..], moduleName, codeChunk, litChunk, expChunk, impChunk, strChunk)
    }

    constructor ()
      ensures Contents() == EMPTY && fresh(atomTable)
    {
      moduleName := [];
      atomTable := new Name[0];
      codeChunk, litChunk, expChunk, impChunk, strChunk := None, None, None, None, None;
    }

    method AtomChunk(bs: seq<Byte>, pos: nat, wide: bool) returns (s: Progress)
      modifies this
      ensures atomTable == old(atomTable) || fresh(atomTable)
      ensures match LoadAtoms(bs, pos, wide, old(Contents()))
              case Rejected => s == TooMany
              case PastEnd => s == Overrun
              case Parsed(f) => s == Going && Contents() == f
    {
      hide ReadAtoms, ModuleName, ReadU32;
      if pos + 4 > |bs| {
        return Overrun;
      }
      var n := AtomCount(ReadU32(bs, pos));
      if n > MAX_ATOMS {
        return TooMany;
      }
      var table, ok := ReadAtomTable(bs, pos + 4, n, wide);
      if !ok {
        return Overrun;
      }
      atomTable := table;
      if n > 0 {
        moduleName := ModuleName(table[0]);
      }
      s := Going;
    }

    method OtherChunk(id: seq<Byte>, body: seq<Byte>)
      modifies this
      ensures atomTable == old(atomTable) && Contents() == WithChunk(old(Contents()), id, body)
    {
      if id == CODE {
        codeChunk := Some(body);
      } else if id == LITT {
        litChunk := Some(body);
      } else if id == EXPT {
        expChunk := Some(body);
      } else if id == IMPT {
        impChunk := Some(body);
      } else if id == STRT {
        strChunk := Some(body);
      }
    }

    /** The chunk loop. */
    method Chunks(bs: seq<Byte>) returns (s: Progress)
      modifies this
      ensures match Walk(bs, 12, old(Contents()))
              case Rejected => s == TooMany
              case PastEnd => s == Overrun
              case Parsed(f) => s == Going && Contents() == f
    {
      hide LoadAtoms, WithChunk, ReadU32, Padding;
      var pos := 12;
      ghost var all := Walk(bs, 12, Contents());
      while pos + 8 <= |bs|
        invariant atomTable == old(atomTable) || fresh(atomTable)
        invariant Walk(bs, pos, Contents()) == all
        decreases |bs| - pos
      {
        var id := bs[pos..pos + 4];
        var len := ReadU32(bs, pos + 4);
        if pos + 8 + len > |bs| {
          break;
        }
        if id == ATOM || id == ATU8 {
          s := AtomChunk(bs, pos + 8, id == ATU8);
          if s != Going {
            return;
          }
        } else {
          OtherChunk(id, bs[pos + 8..pos + 8 + len]);
        }
        pos := pos + 8 + (len + Padding(len));
      }
      s := Going;
    }

    /** `beam_file_get_atom`: null past the end, otherwise a C string. */
    method GetAtom(index: nat) returns (name: Option<Name>)
      ensures name == if index < |Contents().atoms| then Some(CString(Contents().atoms[index])) else None
    {
      if index >= atomTable.Length {
        return None;
      }
      name := Some(CString(atomTable[index]));
    }
  }

  /** `beam_file_parse` on a buffer: null for a bad header or an oversized atom count. */
  method ParseFile(bs: seq<Byte>) returns (s: Progress, file: BeamFile?)
    ensures match Parse(bs)
            case Rejected => s != Overrun && file == null
            case PastEnd => s == Overrun && file == null
            case Parsed(f) => s == Going && file != null && fresh(file) && file.Contents() == f
  {
    hide Walk;
    if |bs| < 12 || bs[0..4] != FOR1 || bs[8..12] != BEAM {
      return Going, null;
    }
    file := new BeamFile();
    s := file.Chunks(bs);
    if s != Going {
      file := null;
    }
  }

  // ---------- encoding ----------

  datatype Chunk =
    | Atoms(wide: bool, negative: bool, names: seq<Name>)
    | Other(id: seq<Byte>, body: seq<Byte>)

  function EncodeNames(names: seq<Name>, wide: bool): seq<Byte> {
    if names == [] then []
    else Bytes(|names[0]|, if wide then 2 else 1) + names[0] + EncodeNames(names[1..], wide)
  }

  function CountField(n: nat, negative: bool): nat
    requires n < 0x8000_0000
  {
    if negative && n > 0 then UINT32_SPAN - n else n
  }

  function ChunkId(c: Chunk): seq<Byte> {
    match c
    case Atoms(wide, _, _) => if wide then ATU8 else ATOM
    case Other(id, _) => id
  }

  function ChunkBody(c: Chunk): seq<Byte>
    requires c.Atoms? ==> |c.names| < 0x8000_0000
  {
    match c
    case Atoms(wide, negative, names) => Bytes(CountField(|names|, negative), 4) + EncodeNames(names, wide)
    case Other(_, body) => body
  }

  predicate NamesFit(names: seq<Name>, wide: bool) {
    forall i :: 0 <= i < |names| ==> |names[i]| < if wide then 0x1_0000 else 0x100
  }

  /** The lengths fit their fields. */
  predicate WfChunk(c: Chunk) {
    && (c.Atoms? ==> |c.names| < 0x8000_0000 && NamesFit(c.names, c.wide))
    && (c.Other? ==> |c.id| == 4 && c.id != ATOM && c.id != ATU8)
    && |ChunkBody(c)| < UINT32_SPAN
  }

  predicate WfChunks(cs: seq<Chunk>) {
    forall i :: 0 <= i < |cs| ==> WfChunk(cs[i])
  }

  function Zeros(n: nat): (bs: seq<Byte>)
    ensures |bs| == n
  {
    seq(n, _ => 0)
  }

  /** Identifier, length, body, and zero bytes up to a multiple of four. */
  function EncodeChunk(c: Chunk): seq<Byte>
    requires WfChunk(c)
  {
    var body := ChunkBody(c);
    ChunkId(c) + (Bytes(|body|, 4) + (body + Zeros(Aligned(|body|) - |body|)))
  }

  function EncodeChunks(cs: seq<Chunk>): seq<Byte>
    requires WfChunks(cs)
  {
    if cs == [] then []
    else
      assert WfChunk(cs[0]);
      EncodeChunk(cs[0]) + EncodeChunks(cs[1..])
  }

  /** A file: its size field is not looked at. */
  function EncodeFile(size: seq<Byte>, cs: seq<Chunk>): seq<Byte>
    requires |size| == 4 && WfChunks(cs)
  {
    FOR1 + size + BEAM + EncodeChunks(cs)
  }

  // ---------- what loading should find ----------

  /** The names of the last atom chunk. */
  function AtomsIn(cs: seq<Chunk>): seq<Name> {
    if cs == [] then []
    else if cs[|cs| - 1].Atoms? then cs[|cs| - 1].names
    else AtomsIn(cs[..|cs| - 1])
  }

  /** The module is named by the last atom chunk that has a name. */
  function ModuleIn(cs: seq<Chunk>): Name {
    if cs == [] then []
    else if cs[|cs| - 1].Atoms? && cs[|cs| - 1].names != [] then ModuleName(cs[|cs| - 1].names[0])
    else ModuleIn(cs[..|cs| - 1])
  }

  /** The bytes of the last chunk called `id`. */
  function BodyIn(cs: seq<Chunk>, id: seq<Byte>): Option<seq<Byte>> {
    if cs == [] then None
    else if cs[|cs| - 1].Other? && cs[|cs| - 1].id == id then Some(cs[|cs| - 1].body)
    else BodyIn(cs[..|cs| - 1], id)
  }

  function Summary(cs: seq<Chunk>): FileRecord {
    FileRecord(AtomsIn(cs), ModuleIn(cs),
      BodyIn(cs, CODE), BodyIn(cs, LITT), BodyIn(cs, EXPT), BodyIn(cs, IMPT), BodyIn(cs, STRT))
  }

  predicate SmallTables(cs: seq<Chunk>) {
    forall i :: 0 <= i < |cs| ==> cs[i].Atoms? ==> |cs[i].names| <= 100000
  }

  function Expected(cs: seq<Chunk>): Outcome {
    if SmallTables(cs) then Parsed(Summary(cs)) else Rejected
  }

  // ---------- loading undoes encoding ----------

  lemma ReadLengthOf(bs: seq<Byte>, p: nat, n: nat, wide: bool)
    requires n < if wide then 0x1_0000 else 0x100
    requires Stands(bs, p, Bytes(n, LengthSize(wide)))
    ensures p + LengthSize(wide) <= |bs| && ReadLength(bs, p, wide) == n
  {
    var ws := Bytes(n, LengthSize(wide));
    assert bs[p] == bs[p..p + |ws|][0] == ws[0];
    if wide {
      assert bs[p + 1] == bs[p..p + |ws|][1] == ws[1];
      assert Bytes(n, 2) == Bytes(n / 256, 1) + [n % 256];
      assert Bytes(n / 256, 1) == [n / 256 % 256];
    } else {
      assert Bytes(n, 1) == [n % 256];
    }
  }

  lemma {:induction false} ReadAtomsOf(bs: seq<Byte>, p: nat, names: seq<Name>, wide: bool)
    requires NamesFit(names, wide) && Stands(bs, p, EncodeNames(names, wide))
    ensures ReadAtoms(bs, p, |names|, wide) == Some(names)
    decreases |names|
  {
    hide Bytes, ReadLength, Stands;
    if names != [] {
      var name, rest, w := names[0], names[1..], LengthSize(wide);
      StandsSplit(bs, p, Bytes(|name|, w) + name, EncodeNames(rest, wide));
      StandsSplit(bs, p, Bytes(|name|, w), name);
      ReadLengthOf(bs, p, |name|, wide);
      assert bs[p + w..p + w + |name|] == name by {
        StandsThere(bs, p + w, name);
      }
      ReadAtomsOf(bs, p + w + |name|, rest, wide);
      assert names == [name] + rest;
    }
  }

  lemma StandsThere(bs: seq<Byte>, p: nat, ws: seq<Byte>)
    requires Stands(bs, p, ws)
    ensures p + |ws| <= |bs| && bs[p..p + |ws|] == ws
  {
  }

  lemma LoadAtomsOf(bs: seq<Byte>, pos: nat, c: Chunk, f: FileRecord)
    requires WfChunk(c) && c.Atoms? && Stands(bs, pos, ChunkBody(c))
    ensures LoadAtoms(bs, pos, c.wide, f)
         == if |c.names| > MAX_ATOMS then Rejected else Parsed(WithAtoms(f, c.names))
  {
    hide ReadAtoms, EncodeNames, Bytes, ReadU32, Stands, WithAtoms;
    var field := CountField(|c.names|, c.negative);
    StandsSplit(bs, pos, Bytes(field, 4), EncodeNames(c.names, c.wide));
    ReadU32Of(bs, pos, field);
    ReadAtomsOf(bs, pos + 4, c.names, c.wide);
  }

  lemma ChunkStands(bs: seq<Byte>, pos: nat, c: Chunk)
    requires WfChunk(c) && Stands(bs, pos, EncodeChunk(c))
    ensures |ChunkId(c)| == 4 && pos + 8 <= |bs| && bs[pos..pos + 4] == ChunkId(c)
    ensures ReadU32(bs, pos + 4) == |ChunkBody(c)| && Stands(bs, pos + 8, ChunkBody(c))
    ensures |EncodeChunk(c)| == 8 + Aligned(|ChunkBody(c)|)
  {
    hide ChunkBody, Bytes, ReadU32, Stands;
    var body := ChunkBody(c);
    var tail := body + Zeros(Aligned(|body|) - |body|);
    hide Aligned;
    StandsSplit(bs, pos, ChunkId(c), Bytes(|body|, 4) + tail);
    StandsThere(bs, pos, ChunkId(c));
    StandsSplit(bs, pos + 4, Bytes(|body|, 4), tail);
    ReadU32Of(bs, pos + 4, |body|);
    StandsSplit(bs, pos + 8, body, Zeros(Aligned(|body|) - |body|));
  }

  function Apply(f: FileRecord, c: Chunk): FileRecord {
    match c
    case Atoms(_, _, names) => WithAtoms(f, names)
    case Other(id, body) => WithChunk(f, id, body)
  }

  lemma LoadChunkOf(bs: seq<Byte>, pos: nat, c: Chunk, f: FileRecord)
    requires WfChunk(c) && Stands(bs, pos, ChunkBody(c))
    ensures pos + |ChunkBody(c)| <= |bs|
    ensures LoadChunk(bs, ChunkId(c), pos, |ChunkBody(c)|, f)
         == if c.Atoms? && |c.names| > MAX_ATOMS then Rejected else Parsed(Apply(f, c))
  {
    hide LoadAtoms, WithChunk, WithAtoms, Bytes, EncodeNames, Stands;
    StandsThere(bs, pos, ChunkBody(c));
    assert ATOM[2] != ATU8[2];
    if c.Atoms? {
      LoadAtomsOf(bs, pos, c, f);
    }
  }

  /** What the chunks so far say, with one more chunk. */
  lemma SummaryNext(cs: seq<Chunk>, c: Chunk)
    ensures Summary(cs + [c]) == Apply(Summary(cs), c)
    ensures SmallTables(cs + [c]) <==> SmallTables(cs) && (c.Atoms? ==> |c.names| <= MAX_ATOMS)
  {
    hide ModuleName;
    var all := cs + [c];
    assert all[..|all| - 1] == cs && all[|all| - 1] == c;
    assert forall i :: 0 <= i < |cs| ==> all[i] == cs[i];
    assert CODE[0] != LITT[0] && CODE[0] != EXPT[0] && CODE[0] != IMPT[0] && CODE[0] != STRT[0];
    assert LITT[0] != EXPT[0] && LITT[0] != IMPT[0] && LITT[0] != STRT[0];
    assert EXPT[0] != IMPT[0] && EXPT[0] != STRT[0] && IMPT[0] != STRT[0];
  }

  lemma SmallTablesPrefix(done: seq<Chunk>, cs: seq<Chunk>)
    requires !SmallTables(done)
    ensures !SmallTables(done + cs)
  {
    var i :| 0 <= i < |done| && done[i].Atoms? && |done[i].names| > MAX_ATOMS;
    assert (done + cs)[i] == done[i];
  }

  lemma WalkOne(bs: seq<Byte>, pos: nat, c: Chunk, f: FileRecord)
    requires WfChunk(c) && Stands(bs, pos, EncodeChunk(c))
    ensures Walk(bs, pos, f)
         == if c.Atoms? && |c.names| > MAX_ATOMS then Rejected
            else Walk(bs, pos + |EncodeChunk(c)|, Apply(f, c))
  {
    hide LoadChunk, Apply, EncodeChunk, Stands, ReadU32, ChunkBody, Padding, ChunkId, Aligned;
    PaddingAligns(|ChunkBody(c)|);
    ChunkStands(bs, pos, c);
    LoadChunkOf(bs, pos + 8, c, f);
  }

  lemma {:induction false} WalkEncoded(bs: seq<Byte>, pos: nat, done: seq<Chunk>, cs: seq<Chunk>)
    requires WfChunks(cs) && SmallTables(done)
    requires Stands(bs, pos, EncodeChunks(cs)) && pos + |EncodeChunks(cs)| == |bs|
    ensures Walk(bs, pos, Summary(done)) == Expected(done + cs)
    decreases |cs|
  {
    hide Walk, Summary, SmallTables, EncodeChunk, Stands, Apply, WfChunk;
    if cs == [] {
      WalkEnds(bs, pos, Summary(done));
      assert done + cs == done;
    } else {
      var c, rest := cs[0], cs[1..];
      assert WfChunk(c);
      assert cs == [c] + rest && done + cs == (done + [c]) + rest;
      StandsSplit(bs, pos, EncodeChunk(c), EncodeChunks(rest));
      WalkOne(bs, pos, c, Summary(done));
      SummaryNext(done, c);
      if c.Atoms? && |c.names| > MAX_ATOMS {
        SmallTablesPrefix(done + [c], rest);
      } else {
        WalkEncoded(bs, pos + |EncodeChunk(c)|, done + [c], rest);
      }
    }
  }

  lemma WalkEnds(bs: seq<Byte>, pos: nat, f: FileRecord)
    requires pos == |bs|
    ensures Walk(bs, pos, f) == Parsed(f)
  {
  }

  /** Loading undoes encoding: for any chunks in any order the loader finds every name of the
      last atom table and the exact bytes of the last chunk of each known kind, unless some
      table has more than 100000 names, and then it rejects the file. */
  lemma LoaderRoundTrip(size: seq<Byte>, cs: seq<Chunk>)
    requires |size| == 4 && WfChunks(cs)
    ensures Parse(EncodeFile(size, cs)) == Expected(cs)
  {
    hide Walk, EncodeChunks, WfChunks, SmallTables;
    var bs := EncodeFile(size, cs);
    assert bs[0..4] == FOR1 && bs[8..12] == BEAM;
    assert bs[12..12 + |EncodeChunks(cs)|] == EncodeChunks(cs);
    assert SmallTables([]) by {
      NoTables();
    }
    assert Summary([]) == EMPTY;
    WalkEncoded(bs, 12, [], cs);
    assert [] + cs == cs;
  }

  lemma NoTables()
    ensures SmallTables([])
  {
  }

  /** A caller reading atom `i` as a C string gets the name exactly when it holds no zero byte;
      the module name is the first name exactly when that also fits in 63 bytes. */
  lemma NamesReadBack(names: seq<Name>, i: nat)
    requires i < |names|
    ensures CString(names[i]) == names[i] <==> 0 !in names[i]
    ensures ModuleName(names[0]) == names[0] <==> 0 !in names[0] && |names[0]| <= 63
    ensures var kept := ModuleName(names[0]);
            && kept <= names[0] && 0 !in kept && |kept| <= 63
            && (|kept| < |names[0]| && |kept| < 63 ==> names[0][|kept|] == 0)
  {
    CStringWhole(names[i]);
    var first := names[0];
    var kept := first[..if |first| < MODULE_NAME_SIZE then |first| else MODULE_NAME_SIZE];
    CStringWhole(kept);
    CStringPrefix(kept);
    assert |first| <= MODULE_NAME_SIZE ==> kept == first;
  }

  /** The chunk identifiers spelt out. */
  lemma ChunkNames()
    ensures FOR1 == Ascii("FOR1") && BEAM == Ascii("BEAM") && ATOM == Ascii("Atom") && ATU8 == Ascii("AtU8")
    ensures CODE == Ascii("Code") && LITT == Ascii("LitT") && EXPT == Ascii("ExpT")
    ensures IMPT == Ascii("ImpT") && STRT == Ascii("StrT")
  {
  }
}
