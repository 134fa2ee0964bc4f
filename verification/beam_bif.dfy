/** Built-in functions called by CALL_EXT. */
module BeamBif {
  import opened BeamCore
  import opened HeapValues

  /** Number of cells in the chain of tails. */
  function ChainLength(v: Value): nat
    decreases v
  {
    if v.Block? && v.kind.ListKind? && |v.kids| == 2 then 1 + ChainLength(v.kids[1]) else 0
  }

  /** The `length/1` walk.  The list's value bounds the loop, so it ends on every term the
      heap can hold, whichever way its pointers run. */
  method Length1(m: Space, arg: Term, ghost v: Value) returns (r: Term)
    requires Represents(m, arg, v)
    ensures r == MakeSmall(ChainLength(v))
  {
    var list := arg;
    var len := 0;
    ghost var rest := v;
    while list.List?
      invariant Represents(m, list, rest)
      invariant len + ChainLength(rest) == ChainLength(v)
      decreases rest
    {
      len := len + 1;
      assert Represents(m, Fields(m, list)[1], rest.kids[1]);
      list, rest := m.words[list.addr - m.base + 1], rest.kids[1];
    }
    r := MakeSmall(len);
  }

  /** The atoms with index 1 and 2 stand for true and false. */
  function Flag(b: bool): Term {
    Atom(if b then 1 else 2)
  }

  /** The words of true and false. */
  lemma FlagWords()
    ensures Pack(Flag(true)) == 27 && Pack(Flag(false)) == 43
  {
  }

  /** A proper list of the given elements. */
  function ListOf(es: seq<Value>): Value {
    if es == [] then Imm(Nil) else Block(ListKind, [es[0], ListOf(es[1..])])
  }

  /** The length of a list is the number of its elements; of an improper list, of the cells in
      front of its tail; of anything else, zero. */
  lemma {:induction false} LengthOfList(es: seq<Value>)
    ensures ChainLength(ListOf(es)) == |es|
    decreases |es|
  {
    if es != [] {
      LengthOfList(es[1..]);
    }
  }

  /** What function `index` answers on the first registers; `v` is the value of the first. */
  predicate IsAnswer(index: nat, pid: nat, args: seq<Term>, arity: int, v: Value, status: Status, r: Term)
    requires |args| >= 2
  {
    && status == (if index <= 5 then Ok else NotFound)
    && (index == 0 ==> Pack(r) == 16 * pid % UINT32_SPAN + 15)
    && (index == 1 && arity >= 2 ==> r.Small? && SmallOf(r) == Wrap60(SmallOf(args[0]) + SmallOf(args[1])))
    && (index == 2 && arity >= 2 ==> r.Small? && SmallOf(r) == Wrap60(SmallOf(args[0]) - SmallOf(args[1])))
    && (index == 3 && arity >= 1 ==> Pack(r) == if !v.Block? && Pack(v.term) % 16 == 11 then 27 else 43)
    && (index == 4 && arity >= 1 ==> Pack(r) == if v.Block? && v.kind.TupleKind? then 27 else 43)
    && (index == 5 && arity >= 1 ==> r == MakeSmall(ChainLength(v)))
    && (1 <= index <= 5 && arity < (if index <= 2 then 2 else 1) ==> r == Raw(0))
  }

  /** `beam_bif_dispatch`; `v` is the value of the first argument register. */
  method Dispatch(index: nat, pid: nat, m: Space, args: seq<Term>, arity: int, ghost v: Value)
    returns (status: Status, r: Term)
    requires |args| >= 2 && Represents(m, args[0], v)
    ensures IsAnswer(index, pid, args, arity, v, status, r)
  {
    status, r := Ok, Raw(0);
    if index == 0 {
      r := MakePid(pid);
      PidWords(pid, pid);
    } else if index == 1 {
      if arity >= 2 {
        r := MakeSmall(SmallOf(args[0]) + SmallOf(args[1]));
        SmallRoundTrip(SmallOf(args[0]) + SmallOf(args[1]));
      }
    } else if index == 2 {
      if arity >= 2 {
        r := MakeSmall(SmallOf(args[0]) - SmallOf(args[1]));
        SmallRoundTrip(SmallOf(args[0]) - SmallOf(args[1]));
      }
    } else if index == 3 {
      if arity >= 1 {
        r := Flag(Pack(args[0]) % 16 == 11);
        PackedTag(args[0]);
      }
    } else if index == 4 {
      if arity >= 1 {
        r := Flag(IsTuple(m, args[0]));
      }
    } else if index == 5 {
      if arity >= 1 {
        r := Length1(m, args[0], v);
      }
    } else {
      status := NotFound;
    }
  }
}
