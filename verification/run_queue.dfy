/** The run queue over four linked levels. */
module RunQueueList {
  import opened BeamCore
  import opened RunQueueModel

  class RunNode {
    const proc: Pid
    var next: RunNode?

    constructor (proc: Pid)
      ensures this.proc == proc && next == null
    {
      this.proc := proc;
      next := null;
    }
  }

  ghost function Procs(ns: seq<RunNode>): (ps: seq<Pid>)
    ensures |ps| == |ns| && forall i :: 0 <= i < |ps| ==> ps[i] == ns[i].proc
  {
    seq(|ns|, i requires 0 <= i < |ns| => ns[i].proc)
  }

  ghost function At(ns: seq<RunNode>, i: int): RunNode? {
    if 0 <= i < |ns| then ns[i] else null
  }

  /** One priority level. */
  class Level {
    var head: RunNode?
    var tail: RunNode?
    var count: nat
    ghost var nodes: seq<RunNode>
    ghost var owned: set<RunNode>     // the nodes of this level, in use or not

    ghost predicate Valid()
      reads this, owned
      ensures Valid() ==> (head == null <==> nodes == [])
    {
      && (forall i :: 0 <= i < |nodes| ==> nodes[i] in owned)
      && (forall i, j :: 0 <= i < j < |nodes| ==> nodes[i] != nodes[j])
      && head == At(nodes, 0)
      && tail == At(nodes, |nodes| - 1)
      && (forall i {:trigger nodes[i].next} :: 0 <= i < |nodes| ==> nodes[i].next == At(nodes, i + 1))
      && count == |nodes|
    }

    ghost function Items(): (ps: seq<Pid>)
      reads this
      ensures |ps| == |nodes|
    {
      Procs(nodes)
    }

    constructor ()
      ensures Valid() && Items() == [] && owned == {}
    {
      head, tail, count, nodes, owned := null, null, 0, [], {};
    }

    method Append(proc: Pid)
      requires Valid()
      modifies this, owned
      ensures Valid() && Items() == old(Items()) + [proc]
      ensures fresh(owned - old(owned))
    {
      var node := new RunNode(proc);
      if tail == null {
        head := node;
        tail := node;
      } else {
        tail.next := node;
        tail := node;
      }
      count := count + 1;
      nodes := nodes + [node];
      owned := owned + {node};
    }

    method TakeFirst() returns (proc: Pid)
      requires Valid() && head != null
      modifies this
      ensures Valid() && old(Items()) == [proc] + Items() && owned == old(owned)
    {
      var node := head;
      proc := node.proc;
      head := node.next;
      if head == null {
        tail := null;
      }
      count := count - 1;
      ghost var rest := nodes[1..];
      assert forall k :: 0 <= k < |rest| ==> rest[k] == nodes[k + 1];
      assert At(rest, 0) == At(nodes, 1);
      nodes := rest;
    }
  }

  class RunQueue {
    const levels: seq<Level>
    var totalCount: nat
    ghost var Repr: set<object>

    ghost predicate Valid()
      reads this, Repr
    {
      && this in Repr
      && |levels| == NUM_LEVELS
      && (forall k :: 0 <= k < NUM_LEVELS ==> levels[k] in Repr)
      && (forall k :: 0 <= k < NUM_LEVELS ==> levels[k].owned <= Repr)
      && (forall k :: 0 <= k < NUM_LEVELS ==> levels[k].Valid())
      && (forall j, k :: 0 <= j < k < NUM_LEVELS ==> levels[j] != levels[k] && levels[j].owned !! levels[k].owned)
      && totalCount == Count(Queues())
    }

    /** The four sequences. */
    ghost function Queues(): Levels
      requires |levels| == NUM_LEVELS
      reads levels
    {
      [levels[0].Items(), levels[1].Items(), levels[2].Items(), levels[3].Items()]
    }

    constructor ()
      ensures Valid() && Queues() == [[], [], [], []] && fresh(Repr)
    {
      hide Procs, Level.Valid, Level.Items, Count;
      var l0 := new Level();
      var l1 := new Level();
      var l2 := new Level();
      var l3 := new Level();
      levels := [l0, l1, l2, l3];
      totalCount := 0;
      Repr := {this, l0, l1, l2, l3};
      new;
      assert fresh(Repr) by {
        assert Repr == {this, l0, l1, l2, l3};
        hide *;
      }
      FreshLevels();
      hide Valid, Queues;
      NewIsValid();
    }

    lemma NewIsValid()
      requires EmptyLevels() && Queues() == [[], [], [], []] && totalCount == 0
      requires Repr == {this, levels[0], levels[1], levels[2], levels[3]}
      requires levels[0].Valid() && levels[1].Valid() && levels[2].Valid() && levels[3].Valid()
      ensures Valid()
    {
      hide Procs, Level.Items, Level.Valid;
      FreshLevels();
    }

    ghost predicate EmptyLevels()
      reads this, levels
    {
      && |levels| == NUM_LEVELS
      && (forall k :: 0 <= k < NUM_LEVELS ==> levels[k].owned == {} && levels[k].Items() == [])
      && levels[0] != levels[1] && levels[0] != levels[2] && levels[0] != levels[3]
      && levels[1] != levels[2] && levels[1] != levels[3] && levels[2] != levels[3]
    }

    lemma FreshLevels()
      requires EmptyLevels()
      ensures Queues() == [[], [], [], []] && Count(Queues()) == 0
      ensures forall j, k :: 0 <= j < k < NUM_LEVELS ==> levels[j] != levels[k] && levels[j].owned !! levels[k].owned
    {
      hide Procs, Level.Items;
    }

    method EnqueueProcess(proc: Pid, prio: nat) returns (status: Status)
      requires Valid()
      modifies Repr
      ensures Valid() && fresh(Repr - old(Repr))
      ensures prio >= NUM_LEVELS ==> status == InvalidArg && Queues() == old(Queues())
      ensures prio < NUM_LEVELS ==> status == Ok && Queues() == Put(old(Queues()), prio, proc)
      ensures prio < NUM_LEVELS ==> Queues()[prio] == old(Queues())[prio] + [proc]
      ensures forall k :: 0 <= k < NUM_LEVELS && k != prio ==> Queues()[k] == old(Queues())[k]
    {
      hide Procs, Level.Valid, Level.Items, Count;
      if prio >= NUM_LEVELS {
        return InvalidArg;
      }
      levels[prio].Append(proc);
      totalCount := totalCount + 1;
      Repr := Repr + levels[prio].owned;
      status := Ok;
      OthersUnchanged(prio);
      CountAfterPut(old(Queues()), prio, proc);
      assert Queues() == Put(old(Queues()), prio, proc);
    }

    /** An operation on one level leaves the other three as they were. */
    twostate lemma OthersUnchanged(p: nat)
      requires old(Valid()) && p < NUM_LEVELS
      requires levels[p].Valid() && fresh(levels[p].owned - old(levels[p].owned))
      requires forall k :: 0 <= k < NUM_LEVELS && k != p ==>
                 unchanged(levels[k]) && forall n :: n in old(levels[k].owned) ==> unchanged(n)
      ensures forall k :: 0 <= k < NUM_LEVELS ==> levels[k].Valid()
      ensures forall k :: 0 <= k < NUM_LEVELS && k != p ==>
                levels[k].Items() == old(levels[k].Items()) && levels[k].owned == old(levels[k].owned)
      ensures forall j, k :: 0 <= j < k < NUM_LEVELS ==> levels[j].owned !! levels[k].owned
    {
    }

    static lemma CountAfterPut(qs: Levels, level: nat, p: Pid)
      requires level < NUM_LEVELS
      ensures Count(Put(qs, level, p)) == Count(qs) + 1
    {
    }

    static lemma CountAfterTake(qs: Levels, level: nat)
      requires level < NUM_LEVELS && qs[level] != []
      ensures Count(qs[level := qs[level][1..]]) == Count(qs) - 1
    {
    }

    /** MAX, HIGH, NORMAL, LOW: the first level that has a process gives its oldest. */
    method DequeueProcess() returns (r: Option<Pid>)
      requires Valid()
      modifies Repr
      ensures Valid() && Repr == old(Repr)
      ensures match Dequeue(old(Queues()))
              case Nothing => r == None && Queues() == old(Queues())
              case Taken(p, _, rest) => r == Some(p) && Queues() == rest
      ensures match r
              case None => forall k :: 0 <= k < NUM_LEVELS ==> old(Queues())[k] == []
              case Some(p) => exists k :: 0 <= k < NUM_LEVELS && TakenFrom(old(Queues()), k, p, Queues())
                                          && forall j :: 0 <= j < k ==> old(Queues())[j] == []
    {
      DequeueTakesHighest(Queues());
      if totalCount == 0 {
        return None;
      }
      for p := 0 to NUM_LEVELS
        invariant Valid() && Queues() == old(Queues()) && Repr == old(Repr)
        invariant Highest(Queues(), 0) == Highest(Queues(), p)
      {
        if levels[p].head != null {
          var proc := TakeFrom(p);
          return Some(proc);
        }
      }
      r := None;
    }

    /** LOW, NORMAL, HIGH, MAX. */
    method StealProcess() returns (r: Option<Pid>)
      requires Valid()
      modifies Repr
      ensures Valid() && Repr == old(Repr)
      ensures match Steal(old(Queues()))
              case Nothing => r == None && Queues() == old(Queues())
              case Taken(p, _, rest) => r == Some(p) && Queues() == rest
      ensures match r
              case None => forall k :: 0 <= k < NUM_LEVELS ==> old(Queues())[k] == []
              case Some(p) => exists k :: 0 <= k < NUM_LEVELS && TakenFrom(old(Queues()), k, p, Queues())
                                          && forall j :: k < j < NUM_LEVELS ==> old(Queues())[j] == []
    {
      StealTakesLowest(Queues());
      if totalCount == 0 {
        return None;
      }
      for p := NUM_LEVELS downto 0
        invariant Valid() && Queues() == old(Queues()) && Repr == old(Repr)
        invariant Lowest(Queues(), NUM_LEVELS) == Lowest(Queues(), p)
      {
        if levels[p].head != null {
          var proc := TakeFrom(p);
          return Some(proc);
        }
      }
      r := None;
    }

    method TakeFrom(p: nat) returns (proc: Pid)
      requires Valid() && p < NUM_LEVELS && levels[p].head != null
      modifies Repr
      ensures Valid() && Repr == old(Repr)
      ensures old(Queues())[p] != [] && proc == old(Queues())[p][0]
      ensures Queues() == old(Queues())[p := old(Queues())[p][1..]]
    {
      hide Procs, Level.Valid, Level.Items, Count;
      CountAfterTake(Queues(), p);
      proc := levels[p].TakeFirst();
      totalCount := totalCount - 1;
      OthersUnchanged(p);
      assert old(Queues())[p] == [proc] + Queues()[p];
      assert Queues() == old(Queues())[p := old(Queues())[p][1..]];
    }
  }
}
