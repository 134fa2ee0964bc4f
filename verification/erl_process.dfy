/** The process record: heap and stack in one array, registers, frame state. */
module ErlProcess {
  import opened BeamCore
  import opened HeapValues
  import opened MailboxModel

  const NUM_X_REGISTERS: nat := 256
  const MAX_CATCH_DEPTH: nat := 64
  const DEFAULT_REDUCTIONS: int := 4000

  datatype ProcState = Runnable | Running | Waiting | Suspended | Exited

  datatype CatchFrame = CatchFrame(target: nat, stackTop: nat, cp: nat)

  /** The heap after a block is appended to its filled part. */
  function Appended(m: Space, kind: Kind, refs: seq<Term>): (m': Space)
    ensures Extends(m, m')
  {
    Space(m.base, m.words + (HeaderWords(kind, |refs|, Tagged) + refs))
  }

  class Process {
    const pid: nat
    var state: ProcState
    var reductions: int

    // The heap grows up from index 0, the stack down from the end; `base` is the address
    // of the first word and the capacity is the array's length.
    var heap: array<Term>
    var base: Address
    var heapTop: nat
    var stackTop: nat

    const x: array<Term>
    var cp: nat
    var ip: nat
    var catches: seq<CatchFrame>

    // Abstract contents of the linked mailbox, and messages sent to other processes.
    var mailbox: Mbox
    var outbox: seq<(nat, Term)>

    ghost predicate Valid()
      reads this
    {
      && x.Length == NUM_X_REGISTERS
      && x != heap
      && heapTop <= heap.Length
      && stackTop <= heap.Length
    }

    ghost function Live(): Space
      requires Valid()
      reads this, heap
    {
      Space(base, heap[..heapTop])
    }

    ghost function Stack(): seq<Term>
      requires Valid()
      reads this, heap
    {
      heap[stackTop..]
    }

    /** The collector's roots in the order it visits them. */
    ghost function Roots(): seq<Term>
      requires Valid()
      reads this, heap, x
    {
      x[..] + Stack()
    }

    constructor (pid: nat, initialHeapWords: nat, base: Address)
      ensures Valid() && fresh(heap) && fresh(x)
      ensures this.pid == pid && this.base == base && state == Runnable && reductions == 4000
      ensures heap.Length == if initialHeapWords > 0 then initialHeapWords else 256
      ensures heapTop == 0 && stackTop == heap.Length && cp == 0 && ip == 0 && catches == []
      ensures x[..] == seq(256, _ => Raw(0))
      ensures mailbox == Mbox([], None) && outbox == []
    {
      this.pid := pid;
      this.base := base;
      state, reductions := Runnable, DEFAULT_REDUCTIONS;
      var capacity := if initialHeapWords > 0 then initialHeapWords else 256;
      heap := new Term[capacity];
      heapTop, stackTop := 0, capacity;
      x := new Term[NUM_X_REGISTERS](_ => Raw(0));
      cp, ip, catches := 0, 0, [];
      mailbox, outbox := Mbox([], None), [];
    }

    /** Reserves `needed` words.  Growing keeps the words already there and adds zeros; `newBase` is
        where the allocator puts the grown block.  The stack is not moved. */
    method AllocHeap(needed: nat, newBase: Address) returns (at: nat)
      requires Valid()
      modifies this`heap, this`base, this`heapTop
      ensures Valid() && at == old(heapTop) && heapTop == at + needed
      ensures at + needed <= old(heap.Length) ==> heap == old(heap) && base == old(base)
      ensures at + needed > old(heap.Length) ==>
                fresh(heap) && base == newBase && heap.Length == 2 * old(heap.Length) + needed
      ensures heap[..] == old(heap[..]) + seq(heap.Length - old(heap.Length), _ => Raw(0))
    {
      if heapTop + needed > heap.Length {
        var newHeap := new Term[heap.Length * 2 + needed](_ => Raw(0));
        forall i | 0 <= i < heap.Length {
          newHeap[i] := heap[i];
        }
        assert newHeap[..heap.Length] == heap[..];
        heap := newHeap;
        base := newBase;
      }
      at := heapTop;
      heapTop := heapTop + needed;
    }

    /** Appends a tuple.  An empty `elements` with a positive arity stands for the null
        pointer: the fields are then zero words. */
    method MakeTuple(arity: nat, elements: seq<Term>, newBase: Address) returns (t: Term)
      requires Valid()
      requires elements == [] || |elements| == arity
      modifies this`heap, this`base, this`heapTop, heap
      ensures Valid() && t == Boxed(base + old(heapTop))
      ensures old(heapTop) + arity + 1 <= old(heap.Length) ==> heap == old(heap) && base == old(base)
      ensures Live() == Appended(Space(base, old(heap[..heapTop])), TupleKind,
                                 if elements == [] then seq(arity, _ => Raw(0)) else elements)
      ensures old(heapTop) + arity + 1 <= old(heap.Length) ==> heap[heapTop..] == old(heap[heapTop + arity + 1..])
    {
      var at := AllocHeap(arity + 1, newBase);
      var fields := if elements == [] then seq(arity, _ => Raw(0)) else elements;
      Fill(at, [Header(arity)] + fields);
      t := Boxed(base + at);
    }

    method MakeList(head: Term, tail: Term, newBase: Address) returns (t: Term)
      requires Valid()
      modifies this`heap, this`base, this`heapTop, heap
      ensures Valid() && t == List(base + old(heapTop))
      ensures old(heapTop) + 2 <= old(heap.Length) ==> heap == old(heap) && base == old(base)
      ensures Live() == Appended(Space(base, old(heap[..heapTop])), ListKind, [head, tail])
      ensures old(heapTop) + 2 <= old(heap.Length) ==> heap[heapTop..] == old(heap[heapTop + 2..])
    {
      var at := AllocHeap(2, newBase);
      Fill(at, [head, tail]);
      t := List(base + at);
    }

    /** Writes the words of a block that has been reserved. */
    method Fill(at: nat, words: seq<Term>)
      requires Valid() && at + |words| == heapTop
      modifies heap
      ensures Valid() && heap[..heapTop] == old(heap[..at]) + words && heap[heapTop..] == old(heap[heapTop..])
    {
      forall i | 0 <= i < |words| {
        heap[at + i] := words[i];
      }
      assert heap[at..heapTop] == words;
      assert heap[..heapTop] == heap[..at] + heap[at..heapTop];
    }

    method StackPush(t: Term) returns (status: Status)
      requires Valid()
      modifies this`stackTop, heap
      ensures Valid()
      ensures old(stackTop) <= heapTop ==>
                status == NoMemory && stackTop == old(stackTop) && heap[..] == old(heap[..])
      ensures old(stackTop) > heapTop ==>
                status == Ok && stackTop == old(stackTop) - 1 && heap[..] == old(heap[..])[stackTop := t]
    {
      if stackTop <= heapTop {
        return NoMemory;
      }
      stackTop := stackTop - 1;
      heap[stackTop] := t;
      status := Ok;
    }

    method StackPop() returns (status: Status, t: Term)
      requires Valid()
      modifies this`stackTop
      ensures Valid()
      ensures old(stackTop) == heap.Length ==> status == BadArg && stackTop == old(stackTop)
      ensures old(stackTop) < heap.Length ==>
                status == Ok && stackTop == old(stackTop) + 1 && t == heap[old(stackTop)]
    {
      t := Raw(0);
      if stackTop >= heap.Length {
        return BadArg, t;
      }
      t := heap[stackTop];
      stackTop := stackTop + 1;
      status := Ok;
    }
  }

  lemma AppendedHolds(m: Space, kind: Kind, refs: seq<Term>)
    ensures Holds(Appended(m, kind, refs), m.base + |m.words|, HeaderWords(kind, |refs|, Tagged) + refs)
  {
    hide HeaderWords;
    var block := HeaderWords(kind, |refs|, Tagged) + refs;
    assert (m.words + block)[|m.words|..|m.words| + |block|] == block;
  }

  /** A block appended to the heap denotes the tree over the values of its fields. */
  lemma AppendedBlock(m: Space, kind: Kind, refs: seq<Term>, vs: seq<Value>)
    requires RepresentsAll(m, refs, vs)
    requires kind.ListKind? ==> |refs| == 2
    ensures Represents(Appended(m, kind, refs), Pointer(kind, m.base + |m.words|), Block(kind, vs))
  {
    hide HasBlock, Fields, Holds, Appended, HeaderWords, Represents, RepresentsAll;
    var m' := Appended(m, kind, refs);
    AppendedHolds(m, kind, refs);
    assert |refs| == |vs| by {
      SameLength(m, refs, vs);
    }
    BlockFields(m', kind, refs, m.base + |m.words|, Tagged);
    RepresentsAllExtends(m, m', refs, vs);
    BlockRepresents(m', Pointer(kind, m.base + |m.words|), kind, vs);
  }

  lemma SameLength(m: Space, ts: seq<Term>, vs: seq<Value>)
    requires RepresentsAll(m, ts, vs)
    ensures |ts| == |vs|
  {
  }

  lemma BlockRepresents(m: Space, t: Term, kind: Kind, kids: seq<Value>)
    requires HasBlock(m, t) && KindOf(t) == kind && RepresentsAll(m, Fields(m, t), kids)
    ensures Represents(m, t, Block(kind, kids))
  {
  }
}
