/** The code chunk decoder: compact operands, and opcodes the interpreter has no use for
    skipped by their arity. */
module BeamDecode {
  import opened BeamCore
  import opened ByteStrings

  /** Number of operands by opcode, sixteen opcodes a row; zero for opcodes past the table. */
  const ARITIES: seq<seq<nat>> := [
    [0, 1, 3, 0, 2, 3, 2, 2, 3, 2, 4, 5, 2, 3, 2, 3],
    [2, 1, 1, 0, 0, 0, 0, 2, 1, 1, 2, 4, 4, 4, 4, 4],
    [4, 4, 4, 4, 4, 4, 3, 3, 3, 3, 3, 3, 3, 2, 2, 2],
    [2, 2, 2, 2, 2, 2, 2, 2, 2, 2, 3, 3, 3, 1, 2, 1],
    [2, 3, 3, 3, 3, 3, 2, 1, 1, 0, 1, 1, 3, 2, 2, 2],
    [5, 5, 5, 4, 2, 1, 1, 2, 2, 5, 5, 5, 2, 1, 0, 1],
    [2, 2, 4, 4, 4, 4, 3, 1, 2, 1, 1, 1, 2, 6, 3, 5],
    [1, 2, 2, 3, 5, 7, 7, 7, 5, 3, 2, 2, 5, 6, 2, 2],
    [2, 2, 1, 3, 4, 0, 8, 6, 2, 6, 5, 4, 5, 4, 5, 4],
    [3, 3, 3, 3, 3, 0, 1, 1, 7, 1, 5, 5, 2, 3, 3, 4],
    [0, 0, 2, 2, 2, 3, 4, 3, 2, 2, 4, 3, 1, 2, 1, 1],
    [1, 6, 3, 0, 1, 5, 3, 2, 4, 6, 2, 4, 3, 6, 3, 5]
  ]

  function Arity(op: Byte): nat {
    if op / 16 < |ARITIES| && op % 16 < |ARITIES[op / 16]| then ARITIES[op / 16][op % 16] else 0
  }

  /** A decoded instruction; operands are 32-bit fields. */
  datatype Decoded = Decoded(opcode: nat, arg1: nat, arg2: nat, arg3: nat)

  /** The opcodes with a case of their own: the interpreter's opcode and the operands read. */
  function Handled(op: Byte): Option<(nat, nat)> {
    if op == 1 then Some((1, 1))           // label
    else if op == 64 then Some((2, 2))     // move
    else if op == 4 then Some((9, 2))      // call
    else if op == 19 then Some((10, 0))    // return
    else if op == 153 then Some((153, 1))  // line
    else if op == 2 then Some((2, 3))      // func_info
    else if op == 3 then Some((3, 0))      // int_code_end
    else if op == 16 then Some((16, 2))    // test_heap
    else if op == 69 then Some((19, 3))    // get_list
    else if op == 78 then Some((20, 3))    // select_val
    else if op == 62 then Some((30, 2))    // catch
    else if op == 63 then Some((31, 1))    // catch_end
    else if op == 104 then Some((28, 2))   // try
    else if op == 105 then Some((31, 1))   // try_end
    else if op == 106 then Some((29, 1))   // try_case
    else if op == 107 then Some((33, 1))   // try_case_end
    else if op == 108 then Some((32, 2))   // raise
    else if op == 161 then Some((32, 0))   // raw_raise
    else None
  }

  function OperandCount(op: Byte): nat {
    match Handled(op)
    case Some(h) => h.1
    case None => Arity(op)
  }

  // ---------- one operand ----------

  /** Up to `len` bytes from `p` as one big-endian 32-bit number, starting from `acc`. */
  function ReadBytes(bs: seq<Byte>, p: nat, len: nat, acc: nat): (r: (nat, nat))
    requires p <= |bs|
    ensures p <= r.1 <= |bs|
    decreases len
  {
    if len == 0 || p == |bs| then (acc, p)
    else ReadBytes(bs, p + 1, len - 1, (acc * 256 + bs[p]) % UINT32_SPAN)
  }

  /** The word a tag makes of a value. */
  function ArgWord(tag: nat, v: nat): nat {
    if tag == 0 || tag == 1 || tag == 6 then SmallWord(v)
    else if tag == 2 then v * 16 % UINT32_SPAN + 11
    else v
  }

  /** The word an operand stands for: the term for a literal, an integer, an atom or a character,
      and the bare number for a register or a label. */
  function OperandWord(tag: nat, v: nat): nat {
    match tag
    case 0 => Pack(MakeSmall(v))
    case 1 => Pack(MakeSmall(v))
    case 2 => Pack(Atom(v))
    case 6 => Pack(MakeSmall(v))
    case _ => v
  }

  /** Every operand below 2^28 becomes its word; a larger atom index loses its high bits, because
      it is shifted in 32 bits. */
  lemma ArgWordMeans(tag: nat, v: nat)
    ensures v < 0x1000_0000 ==> ArgWord(tag, v) == OperandWord(tag, v)
    ensures v < UINT32_SPAN ==> ArgWord(2, v) == Pack(Atom(v % 0x1000_0000))
  {
    SmallWordIsPacked(v);
    assert 16 * v == UINT32_SPAN * (v / 0x1000_0000) + 16 * (v % 0x1000_0000);
  }

  /** `decode_arg` at position `p`: the word and the next position.  A two-byte operand cut
      off by the end is not consumed. */
  function DecodeArg(bs: seq<Byte>, p: nat): (r: (nat, nat))
    requires p <= |bs|
    ensures p <= r.1 <= |bs|
    decreases |bs| - p
  {
    if p == |bs| then (0, p)
    else
      var b: nat := bs[p];
      var tag := b % 8;
      if b / 8 % 2 == 0 then (ArgWord(tag, b / 16), p + 1)
      else if b / 16 % 2 == 0 then
        if p + 1 == |bs| then (0, p) else (ArgWord(tag, b / 32 * 256 + bs[p + 1]), p + 2)
      else
        var (len, q) :=
          if b / 32 < 7 then (b / 32 + 2, p + 1)
          else var n := DecodeArg(bs, p + 1); (SmallValue(n.0) % UINT32_SPAN, n.1);
        var v := ReadBytes(bs, q, if len > 1024 then 1024 else len, 0);
        (ArgWord(tag, v.0), v.1)
  }

  method ReadBytesAt(bs: seq<Byte>, start: nat, len: nat) returns (val: nat, p: nat)
    requires start <= |bs|
    ensures (val, p) == ReadBytes(bs, start, len, 0)
  {
    val, p := 0, start;
    var i := 0;
    while i < len
      invariant i <= len && p <= |bs|
      invariant ReadBytes(bs, start, len, 0) == ReadBytes(bs, p, len - i, val)
    {
      if p >= |bs| {
        break;
      }
      val := (val * 256 + bs[p]) % UINT32_SPAN;
      p := p + 1;
      i := i + 1;
    }
  }

  method DecodeArgAt(bs: seq<Byte>, start: nat) returns (word: nat, p: nat)
    requires start <= |bs|
    ensures (word, p) == DecodeArg(bs, start)
    decreases |bs| - start
  {
    hide ArgWord, SmallValue, ReadBytes;
    p := start;
    if p >= |bs| {
      return 0, p;
    }
    var b: nat := bs[p];
    p := p + 1;
    var tag := b % 8;
    var val: nat;
    if b / 8 % 2 == 0 {
      val := b / 16;
    } else if b / 16 % 2 == 0 {
      if p >= |bs| {
        return 0, start;
      }
      val := b / 32 * 256 + bs[p];
      p := p + 1;
    } else {
      var len: nat := b / 32;
      if len < 7 {
        len := len + 2;
      } else {
        var nested;
        nested, p := DecodeArgAt(bs, p);
        len := SmallValue(nested) % UINT32_SPAN;
      }
      if len > 1024 {
        len := 1024;
      }
      val, p := ReadBytesAt(bs, p, len);
    }
    word := ArgWord(tag, val);
  }

  // ---------- the whole chunk ----------

  /** `n` operands one after the other, as the 32-bit fields they are stored in. */
  function DecodeArgs(bs: seq<Byte>, p: nat, n: nat): (r: (seq<nat>, nat))
    requires p <= |bs|
    ensures p <= r.1 <= |bs| && |r.0| == n
    decreases n
  {
    if n == 0 then ([], p)
    else
      var a := DecodeArg(bs, p);
      var rest := DecodeArgs(bs, a.1, n - 1);
      ([a.0 % UINT32_SPAN] + rest.0, rest.1)
  }

  function Emitted(op: Byte, args: seq<nat>): Decoded
    requires |args| == OperandCount(op)
  {
    match Handled(op)
    case None => Decoded(0, 0, 0, 0)
    case Some(h) =>
      Decoded(h.0, if h.1 >= 1 then args[0] else 0, if h.1 >= 2 then args[1] else 0, if h.1 >= 3 then args[2] else 0)
  }

  const MAX_INSTRUCTIONS: nat := 100001

  /** The decoding loop from position `p`, with at most `budget` turns. */
  function DecodeFrom(bs: seq<Byte>, p: nat, budget: nat): (r: seq<Decoded>)
    requires p <= |bs|
    ensures |r| <= |bs| - p && |r| <= budget
    decreases budget
  {
    if p == |bs| || budget == 0 then []
    else
      var args := DecodeArgs(bs, p + 1, OperandCount(bs[p]));
      [Emitted(bs[p], args.0)] + DecodeFrom(bs, args.1, budget - 1)
  }

  /** Where the instructions start, computed in 32 bits. */
  function CodeStart(bs: seq<Byte>): nat
    requires |bs| >= 4
  {
    (4 + ReadU32(bs, 0)) % UINT32_SPAN
  }

  /** `beam_decode_code_chunk`: nothing for a chunk shorter than its header. */
  function DecodeChunk(bs: seq<Byte>): Option<seq<Decoded>> {
    if |bs| < 20 then None
    else if CodeStart(bs) > |bs| then Some([])
    else Some(DecodeFrom(bs, CodeStart(bs), MAX_INSTRUCTIONS))
  }

  /** The start is computed in 32 bits: a size field of 2^32 - 4 or more sends the decoder back into
      the header. */
  lemma StartWraps(bs: seq<Byte>)
    requires |bs| >= 20
    ensures ReadU32(bs, 0) < UINT32_SPAN - 4 ==> CodeStart(bs) == 4 + ReadU32(bs, 0)
    ensures ReadU32(bs, 0) >= UINT32_SPAN - 4 ==> CodeStart(bs) == ReadU32(bs, 0) - (UINT32_SPAN - 4) < 4
    ensures CodeStart(bs) >= |bs| ==> DecodeChunk(bs) == Some([])
  {
  }

  method DecodeOperands(bs: seq<Byte>, start: nat, n: nat) returns (args: seq<nat>, p: nat)
    requires start <= |bs|
    ensures (args, p) == DecodeArgs(bs, start, n)
  {
    hide DecodeArg;
    args, p := [], start;
    ghost var all := DecodeArgs(bs, start, n);
    for k := 0 to n
      invariant p <= |bs| && |args| == k
      invariant all.0 == args + DecodeArgs(bs, p, n - k).0 && all.1 == DecodeArgs(bs, p, n - k).1
    {
      var word, q := DecodeArgAt(bs, p);
      assert args + ([word % UINT32_SPAN] + DecodeArgs(bs, q, n - k - 1).0)
          == (args + [word % UINT32_SPAN]) + DecodeArgs(bs, q, n - k - 1).0;
      args, p := args + [word % UINT32_SPAN], q;
    }
    assert args + [] == args;
  }

  /** The instructions in `done` were decoded on the way from `start` to `p`. */
  predicate Reached(bs: seq<Byte>, start: nat, done: seq<Decoded>, p: nat)
    requires start <= |bs|
  {
    && p <= |bs| && |done| <= MAX_INSTRUCTIONS && start + |done| <= p
    && DecodeFrom(bs, start, MAX_INSTRUCTIONS) == done + DecodeFrom(bs, p, MAX_INSTRUCTIONS - |done|)
  }

  lemma OneTurn(bs: seq<Byte>, p: nat, budget: nat)
    requires p < |bs| && budget > 0
    ensures var a := DecodeArgs(bs, p + 1, OperandCount(bs[p]));
            DecodeFrom(bs, p, budget) == [Emitted(bs[p], a.0)] + DecodeFrom(bs, a.1, budget - 1)
  {
    hide DecodeArgs, Emitted, OperandCount;
  }

  lemma ReachNext(bs: seq<Byte>, start: nat, done: seq<Decoded>, p: nat)
    requires start <= |bs| && Reached(bs, start, done, p) && p < |bs| && |done| < MAX_INSTRUCTIONS
    ensures var a := DecodeArgs(bs, p + 1, OperandCount(bs[p]));
            Reached(bs, start, done + [Emitted(bs[p], a.0)], a.1)
  {
    hide DecodeArgs, Emitted, OperandCount, DecodeFrom;
    var a := DecodeArgs(bs, p + 1, OperandCount(bs[p]));
    var i := Emitted(bs[p], a.0);
    OneTurn(bs, p, MAX_INSTRUCTIONS - |done|);
    assert |done + [i]| == |done| + 1;
    var rest := DecodeFrom(bs, a.1, MAX_INSTRUCTIONS - |done + [i]|);
    assert done + ([i] + rest) == (done + [i]) + rest;
  }

  lemma ReachedEnd(bs: seq<Byte>, start: nat, done: seq<Decoded>, p: nat)
    requires start <= |bs| && Reached(bs, start, done, p)
    requires p == |bs| || |done| == MAX_INSTRUCTIONS
    ensures done == DecodeFrom(bs, start, MAX_INSTRUCTIONS)
  {
    assert DecodeFrom(bs, p, MAX_INSTRUCTIONS - |done|) == [];
    assert done + [] == done;
  }

  /** Fills a buffer of one slot for each byte; on no input does it run over. */
  method DecodeCodeChunk(bs: seq<Byte>) returns (r: Option<seq<Decoded>>)
    ensures r == DecodeChunk(bs)
    ensures r.None? <==> |bs| < 20
    ensures |bs| >= 20 && |bs| - 4 <= ReadU32(bs, 0) < 0x1_0000_0000 - 4 ==> r == Some([])
    ensures r.Some? ==> |r.value| <= |bs| && |r.value| <= MAX_INSTRUCTIONS
  {
    hide DecodeArgs, Emitted, CodeStart, OperandCount, DecodeFrom;
    if |bs| < 20 {
      return None;
    }
    StartWraps(bs);
    var p := CodeStart(bs);
    if p > |bs| {
      return Some([]);
    }
    var instrs := new Decoded[|bs|];
    var i := 0;
    var counter := 0;
    assert instrs[..0] == [];
    while p < |bs|
      invariant i <= p <= |bs| && counter == i <= MAX_INSTRUCTIONS
      invariant Reached(bs, CodeStart(bs), instrs[..i], p)
      decreases |bs| - p
    {
      counter := counter + 1;
      if counter > MAX_INSTRUCTIONS {
        break;
      }
      var op := bs[p];
      var args, q := DecodeOperands(bs, p + 1, OperandCount(op));
      ReachNext(bs, CodeStart(bs), instrs[..i], p);
      ghost var was := instrs[..i];
      instrs[i] := Emitted(op, args);
      assert instrs[..i + 1] == was + [Emitted(op, args)];
      p, i := q, i + 1;
    }
    ReachedEnd(bs, CodeStart(bs), instrs[..i], p);
    r := Some(instrs[..i]);
  }

  // ---------- encoding ----------

  /** Bytes needed for a value of 11 bits or more below 2^28. */
  function Width(v: nat): nat {
    if v < 0x1_0000 then 2 else if v < 0x100_0000 then 3 else 4
  }

  /** The compact form of an operand: 4, 11 or more bits. */
  function EncodeArg(tag: nat, v: nat): (bs: seq<Byte>)
    requires tag < 7 && v < 0x1000_0000
    ensures |bs| > 0
  {
    if v < 16 then [v * 16 + tag]
    else if v < 2048 then [v / 256 * 32 + 8 + tag, v % 256]
    else [(Width(v) - 2) * 32 + 24 + tag] + Bytes(v, Width(v))
  }

  lemma {:induction false} ReadBytesConcat(bs: seq<Byte>, p: nat, j: nat, k: nat, acc: nat)
    requires p + j + k <= |bs|
    ensures var r := ReadBytes(bs, p, j, acc);
            r.1 == p + j && ReadBytes(bs, p, j + k, acc) == ReadBytes(bs, p + j, k, r.0)
    decreases j
  {
    if j > 0 {
      ReadBytesConcat(bs, p + 1, j - 1, k, (acc * 256 + bs[p]) % UINT32_SPAN);
    }
  }

  lemma {:induction false} ReadBytesOf(bs: seq<Byte>, p: nat, v: nat, k: nat)
    requires p + k <= |bs| && bs[p..p + k] == Bytes(v, k)
    requires k <= 4 && v < Pow256(k)
    ensures ReadBytes(bs, p, k, 0) == (v, p + k)
    decreases k
  {
    if k > 0 {
      hide ReadBytes;
      assert bs[p..p + k - 1] == bs[p..p + k][..k - 1] == Bytes(v / 256, k - 1);
      assert bs[p + k - 1] == bs[p..p + k][k - 1] == v % 256;
      ReadBytesOf(bs, p, v / 256, k - 1);
      ReadBytesConcat(bs, p, k - 1, 1, 0);
      LastByteRead(bs, p + k - 1, v);
    } else {
      assert ReadBytes(bs, p, 0, 0) == (0, p);
    }
  }

  lemma LastByteRead(bs: seq<Byte>, p: nat, v: nat)
    requires p < |bs| && bs[p] == v % 256 && v < UINT32_SPAN
    ensures ReadBytes(bs, p, 1, v / 256) == (v, p + 1)
  {
    assert v / 256 * 256 + v % 256 == v;
    assert ReadBytes(bs, p + 1, 0, v) == (v, p + 1);
  }

  function Pow256(k: nat): nat {
    if k == 0 then 1 else if k == 1 then 0x100 else if k == 2 then 0x1_0000
    else if k == 3 then 0x100_0000 else 0x1_0000_0000
  }

  lemma ShortByte(tag: nat, v: nat)
    requires tag < 8
    ensures var b := v * 16 + tag; b % 8 == tag && b / 8 % 2 == 0 && b / 16 == v
  {
    Split8(v * 16 + tag, 2 * v, tag);
    Split2(2 * v, v, 0);
    Split16(v * 16 + tag, v, tag);
  }

  lemma LongByte(tag: nat, high: nat, wide: bool)
    requires tag < 8
    ensures var b := 32 * high + (if wide then 24 else 8) + tag;
            b % 8 == tag && b / 8 % 2 == 1 && b / 16 % 2 == (if wide then 1 else 0) && b / 32 == high
  {
    var b := 32 * high + (if wide then 24 else 8) + tag;
    var w := if wide then 1 else 0;
    Split8(b, 2 * (2 * high + w) + 1, tag);
    Split2(2 * (2 * high + w) + 1, 2 * high + w, 1);
    Split16(b, 2 * high + w, 8 + tag);
    Split2(2 * high + w, high, w);
    Split32(b, high, 16 * w + 8 + tag);
  }

  lemma Split2(n: nat, q: nat, r: nat)
    requires n == 2 * q + r && r < 2
    ensures n % 2 == r
  {
  }

  lemma Split8(n: nat, q: nat, r: nat)
    requires n == 8 * q + r && r < 8
    ensures n / 8 == q && n % 8 == r
  {
  }

  lemma Split16(n: nat, q: nat, r: nat)
    requires n == 16 * q + r && r < 16
    ensures n / 16 == q
  {
  }

  lemma Split32(n: nat, q: nat, r: nat)
    requires n == 32 * q + r && r < 32
    ensures n / 32 == q
  {
  }

  lemma DecodeShortArg(bs: seq<Byte>, p: nat, tag: nat, v: nat)
    requires tag < 7 && v < 16 && Stands(bs, p, [v * 16 + tag])
    ensures DecodeArg(bs, p) == (ArgWord(tag, v), p + 1)
  {
    hide ArgWord, SmallValue, ReadBytes;
    assert bs[p] == bs[p..p + 1][0] == v * 16 + tag;
    ShortByte(tag, v);
  }

  lemma DecodeMediumArg(bs: seq<Byte>, p: nat, tag: nat, v: nat)
    requires tag < 7 && 16 <= v < 2048 && Stands(bs, p, [v / 256 * 32 + 8 + tag, v % 256])
    ensures DecodeArg(bs, p) == (ArgWord(tag, v), p + 2)
  {
    hide ArgWord, SmallValue, ReadBytes;
    var b: nat := bs[p];
    assert bs[p] == bs[p..p + 2][0] && bs[p + 1] == bs[p..p + 2][1];
    assert b == 32 * (v / 256) + 8 + tag;
    LongByte(tag, v / 256, false);
    assert b / 32 * 256 + bs[p + 1] == v;
  }

  lemma DecodeWideArg(bs: seq<Byte>, p: nat, tag: nat, v: nat)
    requires tag < 7 && 2048 <= v < 0x1000_0000
    requires Stands(bs, p, [(Width(v) - 2) * 32 + 24 + tag] + Bytes(v, Width(v)))
    ensures DecodeArg(bs, p) == (ArgWord(tag, v), p + 1 + Width(v))
  {
    hide ArgWord, SmallValue, ReadBytes, Bytes;
    var k := Width(v);
    StandsSplit(bs, p, [(k - 2) * 32 + 24 + tag], Bytes(v, k));
    var b: nat := bs[p];
    assert b == bs[p..p + 1][0] == 32 * (k - 2) + 24 + tag;
    LongByte(tag, k - 2, true);
    ReadBytesOf(bs, p + 1, v, k);
  }

  /** Decoding undoes the encoding of one operand and stops right behind it. */
  lemma DecodeEncodedArg(bs: seq<Byte>, p: nat, tag: nat, v: nat)
    requires tag < 7 && v < 0x1000_0000 && Stands(bs, p, EncodeArg(tag, v))
    ensures DecodeArg(bs, p) == (OperandWord(tag, v), p + |EncodeArg(tag, v)|)
    ensures OperandWord(tag, v) < UINT32_SPAN
  {
    ArgWordMeans(tag, v);
    ArgWordFits(tag, v);
    hide ArgWord, OperandWord, DecodeArg, Bytes, Stands;
    if v < 16 {
      DecodeShortArg(bs, p, tag, v);
    } else if v < 2048 {
      DecodeMediumArg(bs, p, tag, v);
    } else {
      DecodeWideArg(bs, p, tag, v);
    }
  }

  lemma ArgWordFits(tag: nat, v: nat)
    requires tag < 7 && v < 0x1000_0000
    ensures ArgWord(tag, v) < UINT32_SPAN
  {
  }

  // ---------- operands of any length ----------

  /** The number big-endian bytes stand for. */
  function Value(ws: seq<Byte>): nat {
    if ws == [] then 0 else Value(ws[..|ws| - 1]) * 256 + ws[|ws| - 1]
  }

  /** Reading keeps the low 32 bits. */
  lemma {:induction false} ReadBytesValue(bs: seq<Byte>, p: nat, k: nat)
    requires p + k <= |bs|
    ensures ReadBytes(bs, p, k, 0) == (Value(bs[p..p + k]) % UINT32_SPAN, p + k)
    decreases k
  {
    if k > 0 {
      hide ReadBytes;
      var ws := bs[p..p + k];
      assert ws[..k - 1] == bs[p..p + (k - 1)] && ws[k - 1] == bs[p + k - 1];
      ReadBytesValue(bs, p, k - 1);
      ReadBytesConcat(bs, p, k - 1, 1, 0);
      OneByteMore(bs, p + k - 1, Value(ws[..k - 1]));
    } else {
      assert bs[p..p] == [] && ReadBytes(bs, p, 0, 0) == (0, p);
    }
  }

  lemma OneByteMore(bs: seq<Byte>, p: nat, high: nat)
    requires p < |bs|
    ensures ReadBytes(bs, p, 1, high % UINT32_SPAN) == ((high * 256 + bs[p]) % UINT32_SPAN, p + 1)
  {
    var v, w := (high % UINT32_SPAN * 256 + bs[p]) % UINT32_SPAN, (high * 256 + bs[p]) % UINT32_SPAN;
    assert ReadBytes(bs, p + 1, 0, v) == (v, p + 1);
    assert v == w by {
      var q := high / UINT32_SPAN;
      assert high * 256 + bs[p] == (high % UINT32_SPAN * 256 + bs[p]) + 256 * q * UINT32_SPAN;
      SameRemainder(high % UINT32_SPAN * 256 + bs[p], 256 * q);
    }
  }

  lemma SameRemainder(a: nat, k: nat)
    ensures (a + k * UINT32_SPAN) % UINT32_SPAN == a % UINT32_SPAN
  {
    var q, r := a / UINT32_SPAN, a % UINT32_SPAN;
    assert a + k * UINT32_SPAN == (q + k) * UINT32_SPAN + r;
  }

  /** An operand of nine bytes or more: its length is an operand of its own in front of the bytes,
      of which at most 1024 are read and the last four count. */
  lemma DecodeNestedArg(bs: seq<Byte>, p: nat, tag: nat, len: nat, ws: seq<Byte>)
    requires tag < 7 && len < 0x1000_0000 && |ws| == (if len > 1024 then 1024 else len)
    requires Stands(bs, p, [0xF8 + tag] + (EncodeArg(1, len) + ws))
    ensures DecodeArg(bs, p) == (ArgWord(tag, Value(ws) % UINT32_SPAN), p + 1 + |EncodeArg(1, len)| + |ws|)
  {
    hide ReadBytes, Bytes, EncodeArg, Stands, ArgWord, Value, SmallValue, OperandWord;
    StandsSplit(bs, p, [0xF8 + tag], EncodeArg(1, len) + ws);
    StandsSplit(bs, p + 1, EncodeArg(1, len), ws);
    var b: nat := bs[p];
    assert b == 32 * 7 + 24 + tag by {
      FirstByte(bs, p, 0xF8 + tag);
    }
    LongByte(tag, 7, true);
    DecodeEncodedArg(bs, p + 1, 1, len);
    LengthRead(len);
    var q := p + 1 + |EncodeArg(1, len)|;
    assert q + |ws| <= |bs| && bs[q..q + |ws|] == ws by {
      StandsAt(bs, q, ws);
    }
    ReadBytesValue(bs, q, |ws|);
    UnfoldNested(bs, p, tag, len, q);
  }

  lemma UnfoldNested(bs: seq<Byte>, p: nat, tag: nat, len: nat, q: nat)
    requires p < |bs| && (var b: nat := bs[p]; b % 8 == tag && b / 8 % 2 == 1 && b / 16 % 2 == 1 && b / 32 == 7)
    requires DecodeArg(bs, p + 1) == (OperandWord(1, len), q) && SmallValue(OperandWord(1, len)) % UINT32_SPAN == len
    ensures q <= |bs|
    ensures var v := ReadBytes(bs, q, if len > 1024 then 1024 else len, 0);
            DecodeArg(bs, p) == (ArgWord(tag, v.0), v.1)
  {
    hide ReadBytes, ArgWord, SmallValue, OperandWord;
  }

  lemma LengthRead(len: nat)
    requires len < 0x1000_0000
    ensures SmallValue(OperandWord(1, len)) % UINT32_SPAN == len
  {
    SmallRoundTrip(len);
  }

  lemma FirstByte(bs: seq<Byte>, p: nat, b: Byte)
    requires Stands(bs, p, [b])
    ensures p < |bs| && bs[p] == b
  {
    assert bs[p] == bs[p..p + 1][0];
  }

  lemma StandsAt(bs: seq<Byte>, p: nat, ws: seq<Byte>)
    requires Stands(bs, p, ws)
    ensures p + |ws| <= |bs| && bs[p..p + |ws|] == ws
  {
  }

  // ---------- operands cut off by the end ----------

  /** An operand of which only `j` bytes are left: a short or medium one reads as zero and takes
      nothing, a wide one is what its remaining bytes stand for. */
  lemma DecodeCutOffArg(bs: seq<Byte>, p: nat, tag: nat, v: nat, j: nat)
    requires tag < 7 && v < 0x1000_0000 && j < |EncodeArg(tag, v)|
    requires p + j == |bs| && bs[p..] == EncodeArg(tag, v)[..j]
    ensures v < 2048 || j == 0 ==> DecodeArg(bs, p) == (0, p)
    ensures v >= 2048 && j > 0 ==> DecodeArg(bs, p) == (ArgWord(tag, Value(Bytes(v, Width(v))[..j - 1]) % UINT32_SPAN), |bs|)
  {
    hide ArgWord, SmallValue, ReadBytes, Bytes, Value;
    if v < 2048 && j > 0 {
      assert bs[p] == bs[p..][0] == EncodeArg(tag, v)[0];
      LongByte(tag, v / 256, false);
    } else if j > 0 {
      CutOffWide(bs, p, tag, v, j);
    }
  }

  lemma CutOffWide(bs: seq<Byte>, p: nat, tag: nat, v: nat, j: nat)
    requires tag < 7 && 2048 <= v < 0x1000_0000 && 0 < j <= Width(v)
    requires p + j == |bs| && bs[p..] == EncodeArg(tag, v)[..j]
    ensures DecodeArg(bs, p) == (ArgWord(tag, Value(Bytes(v, Width(v))[..j - 1]) % UINT32_SPAN), |bs|)
  {
    hide ArgWord, SmallValue, ReadBytes, Bytes, Value;
    var k := Width(v);
    var b: nat := bs[p];
    assert bs[p] == bs[p..][0] == EncodeArg(tag, v)[0] == 32 * (k - 2) + 24 + tag;
    LongByte(tag, k - 2, true);
    assert bs[p + 1..p + 1 + (j - 1)] == bs[p..][1..] == Bytes(v, k)[..j - 1];
    ReadBytesValue(bs, p + 1, j - 1);
    ReadBytesStop(bs, p + 1, j - 1, k, 0);
  }

  /** Reading stops at the end of the buffer. */
  lemma {:induction false} ReadBytesStop(bs: seq<Byte>, p: nat, n: nat, k: nat, acc: nat)
    requires p + n == |bs| && n <= k
    ensures ReadBytes(bs, p, k, acc) == ReadBytes(bs, p, n, acc)
    decreases n
  {
    if n > 0 {
      ReadBytesStop(bs, p + 1, n - 1, k - 1, (acc * 256 + bs[p]) % UINT32_SPAN);
    }
  }

  /** A source instruction: an opcode and its tagged operands. */
  datatype Source = Source(op: Byte, operands: seq<(nat, nat)>)

  predicate WfOperands(os: seq<(nat, nat)>) {
    forall k :: 0 <= k < |os| ==> os[k].0 < 7 && os[k].1 < 0x1000_0000
  }

  /** As many operands as the arity table says; not `select_val`, where the decoder's own case
      reads one more. */
  predicate WfSource(i: Source) {
    |i.operands| == Arity(i.op) && WfOperands(i.operands) && i.op != 78
  }

  predicate WfSources(xs: seq<Source>) {
    forall k :: 0 <= k < |xs| ==> WfSource(xs[k])
  }

  function EncodeArgs(os: seq<(nat, nat)>): seq<Byte>
    requires WfOperands(os)
  {
    if os == [] then [] else EncodeArg(os[0].0, os[0].1) + EncodeArgs(os[1..])
  }

  function Encode(xs: seq<Source>): seq<Byte>
    requires WfSources(xs)
  {
    if xs == [] then []
    else
      assert WfSource(xs[0]);
      [xs[0].op] + EncodeArgs(xs[0].operands) + Encode(xs[1..])
  }

  /** The decoder's own cases read what the arity table says, but for `select_val`. */
  lemma CasesMatchTable(op: Byte)
    ensures OperandCount(op) == Arity(op) <==> op != 78
  {
    assert ARITIES[0] == [0, 1, 3, 0, 2, 3, 2, 2, 3, 2, 4, 5, 2, 3, 2, 3];
    assert ARITIES[1] == [2, 1, 1, 0, 0, 0, 0, 2, 1, 1, 2, 4, 4, 4, 4, 4];
    assert ARITIES[3] == [2, 2, 2, 2, 2, 2, 2, 2, 2, 2, 3, 3, 3, 1, 2, 1];
    assert ARITIES[4] == [2, 3, 3, 3, 3, 3, 2, 1, 1, 0, 1, 1, 3, 2, 2, 2];
    assert ARITIES[6] == [2, 2, 4, 4, 4, 4, 3, 1, 2, 1, 1, 1, 2, 6, 3, 5];
    assert ARITIES[9] == [3, 3, 3, 3, 3, 0, 1, 1, 7, 1, 5, 5, 2, 3, 3, 4];
    assert ARITIES[10] == [0, 0, 2, 2, 2, 3, 4, 3, 2, 2, 4, 3, 1, 2, 1, 1];
  }

  function ArgWords(os: seq<(nat, nat)>): (ws: seq<nat>)
    ensures |ws| == |os|
  {
    if os == [] then [] else [OperandWord(os[0].0, os[0].1)] + ArgWords(os[1..])
  }

  lemma {:induction false} DecodeEncodedArgs(bs: seq<Byte>, p: nat, os: seq<(nat, nat)>)
    requires WfOperands(os) && Stands(bs, p, EncodeArgs(os))
    ensures DecodeArgs(bs, p, |os|) == (ArgWords(os), p + |EncodeArgs(os)|)
    decreases |os|
  {
    hide DecodeArg, EncodeArg, OperandWord;
    if os != [] {
      StandsSplit(bs, p, EncodeArg(os[0].0, os[0].1), EncodeArgs(os[1..]));
      DecodeEncodedArg(bs, p, os[0].0, os[0].1);
      DecodeEncodedArgs(bs, p + |EncodeArg(os[0].0, os[0].1)|, os[1..]);
    }
  }

  /** What decoding should make of a source instruction. */
  function Meaning(i: Source): Decoded
    requires WfSource(i)
  {
    CasesMatchTable(i.op);
    Emitted(i.op, ArgWords(i.operands))
  }

  function Meanings(xs: seq<Source>): (ds: seq<Decoded>)
    requires WfSources(xs)
    ensures |ds| == |xs|
  {
    if xs == [] then []
    else
      assert WfSource(xs[0]);
      [Meaning(xs[0])] + Meanings(xs[1..])
  }

  lemma DecodeOne(bs: seq<Byte>, p: nat, i: Source, budget: nat)
    requires WfSource(i) && Stands(bs, p, [i.op] + EncodeArgs(i.operands)) && budget > 0
    ensures DecodeFrom(bs, p, budget)
         == [Meaning(i)] + DecodeFrom(bs, p + 1 + |EncodeArgs(i.operands)|, budget - 1)
  {
    hide DecodeArgs, EncodeArgs, OperandCount, Arity, Emitted, ArgWords;
    CasesMatchTable(i.op);
    StandsSplit(bs, p, [i.op], EncodeArgs(i.operands));
    assert bs[p] == bs[p..p + 1][0] == i.op;
    DecodeEncodedArgs(bs, p + 1, i.operands);
  }

  /** Decoding undoes encoding and stays in step across opcodes it skips, up to the number of
      turns it has. */
  lemma {:induction false} DecodeEncoded(bs: seq<Byte>, p: nat, xs: seq<Source>, budget: nat)
    requires WfSources(xs) && p + |Encode(xs)| == |bs| && Stands(bs, p, Encode(xs))
    ensures DecodeFrom(bs, p, budget) == Meanings(xs)[..if budget < |xs| then budget else |xs|]
    decreases |xs|
  {
    hide DecodeFrom, EncodeArgs, WfOperands, Meaning, Stands, Arity;
    if xs == [] || budget == 0 {
      NothingToDecode(bs, p, xs, budget);
    } else {
      var i, rest := xs[0], xs[1..];
      assert WfSource(i) && WfOperands(i.operands);
      var code := [i.op] + EncodeArgs(i.operands);
      assert Encode(xs) == code + Encode(rest);
      StandsSplit(bs, p, code, Encode(rest));
      DecodeOne(bs, p, i, budget);
      DecodeEncoded(bs, p + |code|, rest, budget - 1);
      TakeOne(Meaning(i), Meanings(rest), if budget < |xs| then budget else |xs|);
    }
  }

  lemma NothingToDecode(bs: seq<Byte>, p: nat, xs: seq<Source>, budget: nat)
    requires WfSources(xs) && p + |Encode(xs)| == |bs|
    requires xs == [] || budget == 0
    ensures DecodeFrom(bs, p, budget) == []
  {
  }

  lemma TakeOne<T>(x: T, rest: seq<T>, n: nat)
    requires 0 < n <= 1 + |rest|
    ensures ([x] + rest)[..n] == [x] + rest[..n - 1]
  {
  }

  /** A chunk: the size of the rest of the header, four more fields, the instructions. */
  function EncodeChunk(fields: seq<Byte>, xs: seq<Source>): seq<Byte>
    requires WfSources(xs)
  {
    Bytes(|fields|, 4) + fields + Encode(xs)
  }

  lemma ChunkParts(fields: seq<Byte>, xs: seq<Source>)
    requires WfSources(xs)
    ensures var bs := EncodeChunk(fields, xs);
            && |bs| == 4 + |fields| + |Encode(xs)|
            && Stands(bs, 0, Bytes(|fields|, 4)) && Stands(bs, 4 + |fields|, Encode(xs))
  {
    hide Encode, Bytes, WfSources;
    var bs := EncodeChunk(fields, xs);
    assert bs[0..4] == Bytes(|fields|, 4);
    assert bs[4 + |fields|..4 + |fields| + |Encode(xs)|] == Encode(xs);
  }

  /** Decoding a chunk gives every instruction back exactly when there are at most 100001. */
  lemma ChunkRoundTrip(fields: seq<Byte>, xs: seq<Source>)
    requires 16 <= |fields| < UINT32_SPAN - 4 && WfSources(xs)
    ensures DecodeChunk(EncodeChunk(fields, xs)).Some?
    ensures DecodeChunk(EncodeChunk(fields, xs)) == Some(Meanings(xs)) <==> |xs| <= 100001
  {
    hide DecodeFrom, Encode, EncodeChunk, Meanings, WfSources, Bytes, ReadU32, Stands;
    var bs := EncodeChunk(fields, xs);
    var start := 4 + |fields|;
    ChunkParts(fields, xs);
    assert CodeStart(bs) == start by {
      ReadU32Of(bs, 0, |fields|);
    }
    DecodeEncoded(bs, start, xs, MAX_INSTRUCTIONS);
    var all := Meanings(xs);
    assert all[..|xs|] == all;
  }

  /** The value under a tag, read back from the word. */
  function ArgValue(tag: nat, w: nat): nat {
    if tag == 0 || tag == 1 || tag == 2 || tag == 6 then w / 16 else w
  }

  function Field(d: Decoded, k: nat): nat {
    if k == 0 then d.arg1 else if k == 1 then d.arg2 else d.arg3
  }

  lemma {:induction false} ArgWordsAt(os: seq<(nat, nat)>, k: nat)
    requires k < |os|
    ensures ArgWords(os)[k] == OperandWord(os[k].0, os[k].1)
    decreases |os|
  {
    hide OperandWord;
    if k > 0 {
      ArgWordsAt(os[1..], k - 1);
    }
  }

  lemma ArgValueOfWord(tag: nat, v: nat)
    requires tag < 7 && v < 0x1000_0000
    ensures ArgValue(tag, OperandWord(tag, v)) == v
  {
    ArgWordMeans(tag, v);
  }

  lemma HandledReadsThree(op: Byte)
    ensures Handled(op).Some? ==> OperandCount(op) <= 3
  {
  }

  /** The fields of a decoded instruction give back every operand that was encoded. */
  lemma OperandsRecovered(i: Source, k: nat)
    requires WfSource(i) && Handled(i.op).Some? && k < |i.operands|
    ensures k < 3 && Field(Meaning(i), k) == OperandWord(i.operands[k].0, i.operands[k].1)
    ensures ArgValue(i.operands[k].0, Field(Meaning(i), k)) == i.operands[k].1
  {
    CasesMatchTable(i.op);
    HandledReadsThree(i.op);
    hide OperandWord, ArgValue, Handled, Arity, ArgWords;
    ArgWordsAt(i.operands, k);
    ArgValueOfWord(i.operands[k].0, i.operands[k].1);
  }

  /** Fields without an operand are zero, and an opcode without a case leaves an instruction of
      zeros. */
  lemma UnusedFieldsZero(i: Source, k: nat)
    requires WfSource(i) && k < 3 && (Handled(i.op).None? || k >= |i.operands|)
    ensures Field(Meaning(i), k) == 0 && (Handled(i.op).None? ==> Meaning(i) == Decoded(0, 0, 0, 0))
  {
    CasesMatchTable(i.op);
    hide Handled, Arity, ArgWords;
  }

  lemma ArgsNext(bs: seq<Byte>, p: nat, n: nat)
    requires p <= |bs| && n > 0
    ensures var a := DecodeArg(bs, p); var rest := DecodeArgs(bs, a.1, n - 1);
            DecodeArgs(bs, p, n).0 == [a.0 % UINT32_SPAN] + rest.0 && DecodeArgs(bs, p, n).1 == rest.1
  {
    hide DecodeArg;
  }

  lemma DecodeArgsSplit(bs: seq<Byte>, p: nat, n: nat)
    requires p <= |bs|
    ensures var r := DecodeArgs(bs, p, n); var a := DecodeArg(bs, r.1);
            DecodeArgs(bs, p, n + 1) == (r.0 + [a.0 % UINT32_SPAN], a.1)
    decreases n
  {
    hide DecodeArg;
    var a := DecodeArg(bs, p);
    if n > 0 {
      ArgsNext(bs, p, n);
      ArgsNext(bs, p, n + 1);
      DecodeArgsSplit(bs, a.1, n - 1);
      var r := DecodeArgs(bs, a.1, n - 1);
      var w := DecodeArg(bs, r.1).0 % UINT32_SPAN;
      assert [a.0 % UINT32_SPAN] + (r.0 + [w]) == ([a.0 % UINT32_SPAN] + r.0) + [w];
    } else {
      assert DecodeArgs(bs, p, 0) == ([], p) && DecodeArgs(bs, a.1, 0) == ([], a.1);
      ArgsNext(bs, p, 1);
      assert [] + [a.0 % UINT32_SPAN] == [a.0 % UINT32_SPAN] + [];
    }
  }

  /** Nothing is read as an operand at the end, or for a two-byte form the end cuts off. */
  predicate ReadsNothing(bs: seq<Byte>, q: nat)
    requires q <= |bs|
  {
    q < |bs| ==> bs[q] / 8 % 4 == 1 && q + 1 == |bs|
  }

  lemma ConsumesUnless(bs: seq<Byte>, q: nat)
    requires q <= |bs|
    ensures DecodeArg(bs, q).1 == q <==> ReadsNothing(bs, q)
  {
    hide ArgWord, ReadBytes, SmallValue;
    if q < |bs| {
      var b: nat := bs[q];
      assert b / 8 % 4 == 1 <==> b / 8 % 2 == 1 && b / 16 % 2 == 0;
    }
  }

  /** After the two operands of the arity table `select_val` takes the bytes of what follows as
      a third, so the decoder keeps in step exactly when there is nothing there to take. */
  lemma SelectValStaysInStepIff(bs: seq<Byte>, p: nat, os: seq<(nat, nat)>, budget: nat)
    requires WfOperands(os) && |os| == 2 && budget > 0 && Stands(bs, p, [78] + EncodeArgs(os))
    ensures var q := p + 1 + |EncodeArgs(os)|;
            && q <= |bs|
            && DecodeFrom(bs, p, budget)
               == [Decoded(20, ArgWords(os)[0], ArgWords(os)[1], DecodeArg(bs, q).0 % UINT32_SPAN)]
                  + DecodeFrom(bs, DecodeArg(bs, q).1, budget - 1)
            && (DecodeArg(bs, q).1 == q <==> ReadsNothing(bs, q))
  {
    hide DecodeArgs, DecodeArg, EncodeArgs, ArgWords, DecodeFrom, ReadsNothing, WfOperands;
    var q := p + 1 + |EncodeArgs(os)|;
    StandsSplit(bs, p, [78], EncodeArgs(os));
    assert bs[p] == bs[p..p + 1][0] == 78;
    DecodeEncodedArgs(bs, p + 1, os);
    DecodeArgsSplit(bs, p + 1, 2);
    ConsumesUnless(bs, q);
    OneTurn(bs, p, budget);
  }

  /** A `return` behind `select_val` is lost. */
  lemma SelectValSwallowsReturn()
    ensures DecodeFrom([78, 0x03, 0x15, 19], 0, 2) == [Decoded(20, 0, 1, 1)]
  {
    hide DecodeFrom, DecodeArgs, DecodeArg, ArgWord;
    var bs: seq<Byte>, os := [78, 0x03, 0x15, 19], [(3, 0), (5, 1)];
    TwoOperands(os);
    assert bs[0..3] == [78] + EncodeArgs(os);
    hide EncodeArgs, ArgWords, EncodeArg;
    SelectValStaysInStepIff(bs, 0, os, 2);
    LastByteAsOperand(bs);
    assert DecodeFrom(bs, 4, 1) == [] by {
      NothingToDecode(bs, 4, [], 1);
    }
  }

  lemma TwoOperands(os: seq<(nat, nat)>)
    requires os == [(3, 0), (5, 1)]
    ensures WfOperands(os) && EncodeArgs(os) == [0x03, 0x15] && ArgWords(os) == [0, 1]
  {
    var last := os[1..];
    assert last == [(5, 1)];
    assert EncodeArgs(last) == [0x15] + EncodeArgs(last[1..]);
    assert EncodeArgs(os) == [0x03] + EncodeArgs(last);
    assert ArgWords(last) == [1] + ArgWords(last[1..]);
    assert ArgWords(os) == [0] + ArgWords(last);
  }

  lemma LastByteAsOperand(bs: seq<Byte>)
    requires bs == [78, 0x03, 0x15, 19]
    ensures DecodeArg(bs, 3) == (1, 4)
  {
    var b: nat := bs[3];
    assert b == 19 && b % 8 == 3 && b / 8 % 2 == 0 && b / 16 == 1;
    hide ReadBytes, SmallValue;
  }
}
