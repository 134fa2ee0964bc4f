/** The run queue as four sequences, and what its operations do to them. */
module RunQueueModel {
  import opened BeamCore

  type Pid = nat

  const MAX_LEVEL: nat := 0
  const HIGH_LEVEL: nat := 1
  const NORMAL_LEVEL: nat := 2
  const LOW_LEVEL: nat := 3
  const NUM_LEVELS: nat := 4

  type Levels = qs: seq<seq<Pid>> | |qs| == NUM_LEVELS witness [[], [], [], []]

  function Put(qs: Levels, level: nat, p: Pid): Levels
    requires level < NUM_LEVELS
  {
    qs[level := qs[level] + [p]]
  }

  /** The highest level that is not empty. */
  function Highest(qs: Levels, from: nat): (r: Option<nat>)
    requires from <= NUM_LEVELS
    ensures r.Some? ==> from <= r.value < NUM_LEVELS && qs[r.value] != []
    ensures r.Some? ==> forall k :: from <= k < r.value ==> qs[k] == []
    ensures r.None? ==> forall k :: from <= k < NUM_LEVELS ==> qs[k] == []
    decreases NUM_LEVELS - from
  {
    if from == NUM_LEVELS then None
    else if qs[from] != [] then Some(from)
    else Highest(qs, from + 1)
  }

  /** The lowest level below `to` that is not empty. */
  function Lowest(qs: Levels, to: nat): (r: Option<nat>)
    requires to <= NUM_LEVELS
    ensures r.Some? ==> r.value < to && qs[r.value] != []
    ensures r.Some? ==> forall k :: r.value < k < to ==> qs[k] == []
    ensures r.None? ==> forall k :: 0 <= k < to ==> qs[k] == []
  {
    if to == 0 then None
    else if qs[to - 1] != [] then Some(to - 1)
    else Lowest(qs, to - 1)
  }

  datatype Taken = Nothing | Taken(p: Pid, level: nat, rest: Levels)

  /** Takes the oldest process of a level. */
  function TakeAt(qs: Levels, level: Option<nat>): Taken
    requires level.Some? ==> level.value < NUM_LEVELS && qs[level.value] != []
  {
    match level
    case None => Nothing
    case Some(k) => Taken(qs[k][0], k, qs[k := qs[k][1..]])
  }

  function Dequeue(qs: Levels): Taken {
    TakeAt(qs, Highest(qs, 0))
  }

  function Steal(qs: Levels): Taken {
    TakeAt(qs, Lowest(qs, NUM_LEVELS))
  }

  /** Level `k` has lost its oldest process, which is `p`, and nothing else has changed. */
  ghost predicate TakenFrom(qs: Levels, k: nat, p: Pid, rest: Levels) {
    && k < 4 && qs[k] == [p] + rest[k]
    && forall j :: 0 <= j < 4 && j != k ==> rest[j] == qs[j]
  }

  /** A dequeue finds nothing exactly when every level is empty; otherwise it takes the oldest of
      the first level that is not. */
  lemma DequeueTakesHighest(qs: Levels)
    ensures Dequeue(qs).Nothing? <==> qs[0] == [] && qs[1] == [] && qs[2] == [] && qs[3] == []
    ensures Dequeue(qs).Taken? ==>
              TakenFrom(qs, Dequeue(qs).level, Dequeue(qs).p, Dequeue(qs).rest) && forall k :: 0 <= k < Dequeue(qs).level ==> qs[k] == []
  {
  }

  /** A thief looks from the other end. */
  lemma StealTakesLowest(qs: Levels)
    ensures Steal(qs).Nothing? <==> qs[0] == [] && qs[1] == [] && qs[2] == [] && qs[3] == []
    ensures Steal(qs).Taken? ==>
              TakenFrom(qs, Steal(qs).level, Steal(qs).p, Steal(qs).rest) && forall k :: Steal(qs).level < k < 4 ==> qs[k] == []
  {
  }

  function Count(qs: Levels): nat {
    |qs[0]| + |qs[1]| + |qs[2]| + |qs[3]|
  }

  // ---------- histories ----------

  datatype Op = EnqueueOp(p: Pid, level: nat) | DequeueOp | StealOp

  /** The queue with, per level, what was put in and what was taken out. */
  datatype History = History(qs: Levels, put: Levels, taken: Levels)

  const EmptyHistory := History([[], [], [], []], [[], [], [], []], [[], [], [], []])

  function After(h: History, op: Op): History {
    match op
    case EnqueueOp(p, level) =>
      if level >= NUM_LEVELS then h
      else h.(qs := Put(h.qs, level, p), put := Put(h.put, level, p))
    case DequeueOp => Remember(h, Dequeue(h.qs))
    case StealOp => Remember(h, Steal(h.qs))
  }

  function Remember(h: History, t: Taken): History {
    match t
    case Nothing => h
    case Taken(p, level, rest) =>
      if level < NUM_LEVELS then h.(qs := rest, taken := Put(h.taken, level, p)) else h
  }

  function AfterAll(h: History, ops: seq<Op>): History
    decreases |ops|
  {
    if ops == [] then h else AfterAll(After(h, ops[0]), ops[1..])
  }

  ghost predicate InOrder(h: History) {
    forall k :: 0 <= k < NUM_LEVELS ==> h.put[k] == h.taken[k] + h.qs[k]
  }

  lemma AfterKeepsOrder(h: History, op: Op)
    requires InOrder(h)
    ensures InOrder(After(h, op))
  {
    hide Highest, Lowest;
    forall k | 0 <= k < NUM_LEVELS ensures After(h, op).put[k] == After(h, op).taken[k] + After(h, op).qs[k] {
      assert h.put[k] == h.taken[k] + h.qs[k];
      if h.qs[k] != [] {
        assert h.qs[k] == [h.qs[k][0]] + h.qs[k][1..];
      }
    }
  }

  /** Each level is first in first out over every history of enqueues, dequeues and steals:
      what was taken from it, followed by what it holds, is what was put into it.  Nothing is
      lost or duplicated. */
  lemma {:induction false} LevelsAreFifo(h: History, ops: seq<Op>)
    requires InOrder(h)
    ensures InOrder(AfterAll(h, ops))
    decreases |ops|
  {
    hide After, InOrder;
    if ops != [] {
      AfterKeepsOrder(h, ops[0]);
      LevelsAreFifo(After(h, ops[0]), ops[1..]);
    }
  }

  function Flat(qs: Levels): seq<Pid> {
    qs[0] + qs[1] + qs[2] + qs[3]
  }

  /** Enqueued equals returned plus queued, as multisets. */
  lemma Conservation(ops: seq<Op>)
    ensures var h := AfterAll(EmptyHistory, ops);
            multiset(Flat(h.put)) == multiset(Flat(h.taken)) + multiset(Flat(h.qs))
  {
    hide AfterAll;
    LevelsAreFifo(EmptyHistory, ops);
  }
}
