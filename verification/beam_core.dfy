/** Terms of the virtual machine and the 64-bit words that carry them.
    A `Term` is one word with its tag already read; `Pack` is the word itself.
    Addresses count words: the byte address of a cell is eight times its `addr`. */
module BeamCore {

  datatype Term =
    | Raw(n: nat)       // an untagged machine word: 0, a tuple header, a saved code address
    | List(addr: nat)   // pointer to a two-word list cell
    | Boxed(addr: nat)  // pointer to a header word
    | Small(v: int)
    | Port(n: nat)
    | Atom(index: nat)
    | Pid(n: nat)
    | Nil

  datatype Status =
    | Ok | InvalidArg | NoMemory | NotFound | Halt | CorruptFile | BadArg | Exception

  datatype Option<+T> = None | Some(value: T)

  type Byte = b: nat | b < 256

  /** Where a block of memory can begin; zero is the null pointer. */
  type Address = a: nat | 0 < a witness 1

  const WORD_SPAN: int := 0x1_0000_0000_0000_0000
  const SMALL_SPAN: int := 0x1000_0000_0000_0000
  const UINT32_SPAN: int := 0x1_0000_0000

  /** The header word of a tuple: its arity above the six subtag bits, which are zero. */
  function Header(arity: nat): Term {
    Raw(64 * arity)
  }

  predicate IsHeader(t: Term) {
    t.Raw? && t.n % 64 == 0
  }

  // ---------- packed words ----------

  function Pack(t: Term): nat {
    match t
    case Raw(n) => n
    case List(a) => 8 * a + 1
    case Boxed(a) => 8 * a + 2
    case Small(v) => (v % SMALL_SPAN) * 16 + 3
    case Port(n) => 16 * n + 7
    case Atom(i) => 16 * i + 11
    case Pid(n) => 16 * n + 15
    case Nil => 63
  }

  function Signed64(w: int): int {
    var u := w % WORD_SPAN;
    if u < WORD_SPAN / 2 then u else u - WORD_SPAN
  }

  /** `make_small_int` on words: shift left by four, drop what leaves the word, set the tag. */
  function SmallWord(v: int): int {
    (16 * v + 3) % WORD_SPAN
  }

  /** `eterm_to_small_int` on words: arithmetic shift right by four. */
  function SmallValue(w: int): int {
    Signed64(w) / 16
  }

  /** The 60-bit two's complement value that survives the shift. */
  function Wrap60(v: int): int {
    (v + SMALL_SPAN / 2) % SMALL_SPAN - SMALL_SPAN / 2
  }

  function MakeSmall(v: int): Term {
    Small(Wrap60(v))
  }

  function SmallOf(t: Term): int {
    SmallValue(Pack(t))
  }

  const PID_SPAN: int := 0x1000_0000

  /** `(pid << 4) | tag`, shifted in 32 bits; the word for process 3 is the word for the empty
      list. */
  function MakePid(n: nat): Term {
    if n % PID_SPAN == 3 then Nil else Pid(n % PID_SPAN)
  }

  /** One term per word: what the tag bits of a word determine. */
  predicate Canonical(t: Term) {
    match t
    case Raw(n) => n % 4 == 0
    case Small(v) => -SMALL_SPAN / 2 <= v < SMALL_SPAN / 2
    case Pid(n) => n != 3
    case _ => true
  }

  lemma LowBits(q: nat, r: nat)
    requires r < 16
    ensures (16 * q + r) % 16 == r && (16 * q + r) % 4 == r % 4
  {
    var w := 16 * q + r;
    assert w / 16 == q;
    assert w / 4 == 4 * q + r / 4;
  }

  /** The low four bits of a packed word. */
  function TagBits(t: Term): nat {
    match t
    case Raw(n) => n % 16
    case List(addr) => 8 * (addr % 2) + 1
    case Boxed(addr) => 8 * (addr % 2) + 2
    case Small(_) => 3
    case Port(_) => 7
    case Atom(_) => 11
    case Pid(_) => 15
    case Nil => 15
  }

  lemma PackedTag(t: Term)
    ensures Pack(t) % 16 == TagBits(t) && Pack(t) % 4 == TagBits(t) % 4
  {
    match t
    case Raw(n) => LowBits(n / 16, n % 16);
    case List(addr) => LowBits(addr / 2, 8 * (addr % 2) + 1);
    case Boxed(addr) => LowBits(addr / 2, 8 * (addr % 2) + 2);
    case Small(v) => LowBits(v % SMALL_SPAN, 3);
    case Port(n) => LowBits(n, 7);
    case Atom(i) => LowBits(i, 11);
    case Pid(n) => LowBits(n, 15);
    case Nil =>
  }

  /** The tag tests of the packed word are the constructor tests of the term. */
  lemma TagTests(t: Term)
    requires Canonical(t)
    ensures Pack(t) % 16 == 3 <==> t.Small?
    ensures Pack(t) % 16 == 7 <==> t.Port?
    ensures Pack(t) % 16 == 11 <==> t.Atom?
    ensures Pack(t) % 16 == 15 <==> t.Pid? || t.Nil?
    ensures Pack(t) % 4 == 1 <==> t.List?
    ensures Pack(t) % 4 == 2 <==> t.Boxed?
    ensures Pack(t) == 63 <==> t.Nil?
    ensures t.List? || t.Boxed? ==> (Pack(t) - Pack(t) % 4) == 8 * t.addr
  {
    PackedTag(t);
    assert Pack(t) == 63 <==> t.Nil? by {
      assert 63 % 16 == 15;
    }
    if !t.List? && !t.Boxed? {
      hide Pack;
    }
  }

  /** Comparing words is comparing terms. */
  lemma PackInjective(t: Term, u: Term)
    requires Canonical(t) && Canonical(u)
    ensures Pack(t) == Pack(u) <==> t == u
  {
    TagTests(t);
    TagTests(u);
    if Pack(t) == Pack(u) && t.Small? {
      assert t.v % SMALL_SPAN == u.v % SMALL_SPAN;
    }
  }

  lemma ShiftedPid(n: nat)
    ensures 16 * n % UINT32_SPAN == 16 * (n % PID_SPAN)
  {
    assert 16 * n == UINT32_SPAN * (n / PID_SPAN) + 16 * (n % PID_SPAN);
  }

  /** The words of process identifiers: those that are 3 modulo 2^28 are the word of the empty
      list, and two identifiers share a word exactly when they are 2^28 or a multiple apart. */
  lemma PidWords(p: nat, q: nat)
    ensures Canonical(MakePid(p)) && Pack(MakePid(p)) == 16 * p % UINT32_SPAN + 15
    ensures Pack(MakePid(p)) == Pack(Nil) <==> p % PID_SPAN == 3
    ensures Pack(MakePid(p)) == Pack(MakePid(q)) <==> p % PID_SPAN == q % PID_SPAN
  {
    ShiftedPid(p);
    ShiftedPid(q);
  }

  lemma SmallWordIsPacked(v: int)
    ensures Pack(MakeSmall(v)) == SmallWord(v)
  {
    var w := Wrap60(v);
    assert (v - w) % SMALL_SPAN == 0 by {
      assert v - w == (v + SMALL_SPAN / 2) - (v + SMALL_SPAN / 2) % SMALL_SPAN;
    }
    var k := (v - w) / SMALL_SPAN;
    assert v == w + k * SMALL_SPAN;
    var r := w % SMALL_SPAN;
    var j := w / SMALL_SPAN;
    assert 16 * v + 3 == (16 * r + 3) + (j + k) * WORD_SPAN;
  }

  /** Packing an integer and reading it back returns it exactly when it fits in 60 bits. */
  lemma SmallRoundTrip(v: int)
    ensures SmallOf(MakeSmall(v)) == Wrap60(v)
    ensures SmallOf(MakeSmall(v)) == v <==> -SMALL_SPAN / 2 <= v < SMALL_SPAN / 2
  {
    var w := Wrap60(v);
    assert -SMALL_SPAN / 2 <= w < SMALL_SPAN / 2;
    var u := w % SMALL_SPAN;
    assert u == if w < 0 then w + SMALL_SPAN else w;
    assert Pack(MakeSmall(v)) == u * 16 + 3;
    assert Signed64(u * 16 + 3) == 16 * w + 3;
  }
}
