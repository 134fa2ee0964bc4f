/** The lock-free enqueue under every interleaving: any number of producers, each in two
    steps, the exchange of the tail pointer and the link from the previous tail. */
module MailboxLockfree {
  import opened BeamCore
  import opened Sequences

  type NodeId = nat
  type Producer = nat

  datatype Node = Node(from: Producer, body: Term, next: Option<NodeId>)

  /** A producer between its exchange and its link. */
  datatype Pending = Pending(node: NodeId, prev: Option<NodeId>)

  /** Shared memory: the nodes in use, head, tail, the producers between their two steps, and
      the record of what was exchanged in and what was taken out. */
  datatype Queue = Queue(
    nodes: map<NodeId, Node>,
    head: Option<NodeId>,
    tail: Option<NodeId>,
    pending: map<Producer, Pending>,
    sent: seq<(Producer, Term)>,
    received: seq<(Producer, Term)>)

  datatype Event =
    | Exchange(p: Producer, node: NodeId, body: Term)
    | Link(p: Producer)
    | Dequeue

  const EmptyQueue := Queue(map[], None, None, map[], [], [])

  /** The allocator returns a node that is not in use (a released one may come back); a
      producer is in one enqueue at a time.  The owner may dequeue at any time, but the last
      linked message only when no link is pending: then the dequeue also writes the tail. */
  predicate Enabled(q: Queue, e: Event) {
    match e
    case Exchange(p, n, _) => p !in q.pending && n !in q.nodes
    case Link(p) => p in q.pending && (q.pending[p].prev.Some? ==> q.pending[p].prev.value in q.nodes)
    case Dequeue =>
      q.head.Some? ==> q.head.value in q.nodes && (q.nodes[q.head.value].next.None? ==> q.pending == map[])
  }

  /** The dequeue of a nonempty list. */
  function TakeHead(q: Queue): Queue
    requires q.head.Some? && q.head.value in q.nodes
  {
    var node := q.nodes[q.head.value];
    q.(nodes := q.nodes - {q.head.value},
       head := node.next,
       tail := if node.next.None? then None else q.tail,
       received := q.received + [(node.from, node.body)])
  }

  function Apply(q: Queue, e: Event): Queue
    requires Enabled(q, e)
  {
    match e
    case Exchange(p, n, body) =>
      q.(nodes := q.nodes[n := Node(p, body, None)],
         tail := Some(n),
         pending := q.pending[p := Pending(n, q.tail)],
         sent := q.sent + [(p, body)])
    case Link(p) =>
      var w := q.pending[p];
      var q' := q.(pending := q.pending - {p});
      if w.prev.None? then q'.(head := Some(w.node))
      else q'.(nodes := q.nodes[w.prev.value := q.nodes[w.prev.value].(next := Some(w.node))])
    case Dequeue => if q.head.None? then q else TakeHead(q)
  }

  // ---------- the invariant ----------

  function At(order: seq<NodeId>, i: int): Option<NodeId> {
    if 0 <= i < |order| then Some(order[i]) else None
  }

  /** `order` lists the nodes in use, each once. */
  ghost predicate Listed(nodes: map<NodeId, Node>, order: seq<NodeId>) {
    Distinct(order) && (forall n :: n in nodes <==> n in order)
  }

  /** The link to the node at position `i`, which is written once the node is not in `w`. */
  function LinkTo(order: seq<NodeId>, i: nat, w: set<NodeId>): Option<NodeId> {
    if i < |order| && order[i] !in w then Some(order[i]) else None
  }

  /** The list follows `order`, except that no link leads to a node of `w` yet. */
  ghost predicate Linked(nodes: map<NodeId, Node>, head: Option<NodeId>, order: seq<NodeId>, w: set<NodeId>) {
    && head == LinkTo(order, 0, w)
    && (forall i {:trigger nodes[order[i]]} :: 0 <= i < |order| ==>
          order[i] in nodes && nodes[order[i]].next == LinkTo(order, i + 1, w))
  }

  predicate WaitsAt(w: Pending, order: seq<NodeId>, i: int) {
    0 <= i < |order| && w == Pending(order[i], At(order, i - 1))
  }

  /** Every producer between its steps holds its own node and that node's predecessor. */
  ghost predicate Waits(pending: map<Producer, Pending>, order: seq<NodeId>) {
    && (forall p :: p in pending ==> exists i :: WaitsAt(pending[p], order, i))
    && (forall p, r :: p in pending && r in pending && p != r ==> pending[p].node != pending[r].node)
  }

  /** The nodes whose link is still to be written. */
  function Waiting(pending: map<Producer, Pending>): set<NodeId> {
    set p | p in pending :: pending[p].node
  }

  ghost predicate Inv(q: Queue, order: seq<NodeId>) {
    && Listed(q.nodes, order)
    && q.tail == At(order, |order| - 1)
    && Waits(q.pending, order)
    && Linked(q.nodes, q.head, order, Waiting(q.pending))
  }

  /** The messages of the listed nodes. */
  function Contents(nodes: map<NodeId, Node>, order: seq<NodeId>): (ms: seq<(Producer, Term)>)
    requires forall i :: 0 <= i < |order| ==> order[i] in nodes
    ensures |ms| == |order| && forall i :: 0 <= i < |ms| ==> ms[i] == (nodes[order[i]].from, nodes[order[i]].body)
  {
    seq(|order|, i requires 0 <= i < |order| => (nodes[order[i]].from, nodes[order[i]].body))
  }

  /** Nothing is lost, duplicated or reordered. */
  ghost predicate Faithful(q: Queue, order: seq<NodeId>) {
    Inv(q, order) && q.sent == q.received + Contents(q.nodes, order)
  }

  lemma ExchangeWaits(pending: map<Producer, Pending>, order: seq<NodeId>, p: Producer, n: NodeId)
    requires Waits(pending, order) && p !in pending && n !in order
    ensures var pending' := pending[p := Pending(n, At(order, |order| - 1))];
            Waits(pending', order + [n]) && Waiting(pending') == Waiting(pending) + {n}
  {
    var w := Pending(n, At(order, |order| - 1));
    var pending', order' := pending[p := w], order + [n];
    assert WaitsAt(w, order', |order|);
    forall r | r in pending ensures exists i :: WaitsAt(pending[r], order', i) {
      var i :| WaitsAt(pending[r], order, i);
      assert WaitsAt(pending[r], order', i);
    }
    forall m ensures m in Waiting(pending') <==> m in Waiting(pending) + {n} {
      if m in Waiting(pending) {
        var r :| r in pending && pending[r].node == m;
        assert pending'[r].node == m;
      }
      assert pending'[p].node == n;
    }
  }

  lemma ExchangeLinked(nodes: map<NodeId, Node>, head: Option<NodeId>, order: seq<NodeId>, w: set<NodeId>, n: NodeId, node: Node)
    requires Listed(nodes, order) && Linked(nodes, head, order, w) && n !in nodes && node.next.None?
    ensures Listed(nodes[n := node], order + [n]) && Linked(nodes[n := node], head, order + [n], w + {n})
  {
    var nodes', order' := nodes[n := node], order + [n];
    assert Distinct(order');
    hide Distinct;
    forall i | 0 <= i < |order'| ensures order'[i] in nodes' && nodes'[order'[i]].next == LinkTo(order', i + 1, w + {n}) {
      if i < |order| {
        assert order'[i] == order[i] && order[i] in order && nodes[order[i]].next == LinkTo(order, i + 1, w);
      }
    }
    assert LinkTo(order', 0, w + {n}) == LinkTo(order, 0, w) by {
      assert |order| > 0 ==> order[0] in order;
    }
  }

  lemma ExchangeContents(nodes: map<NodeId, Node>, order: seq<NodeId>, n: NodeId, node: Node)
    requires Listed(nodes, order) && n !in nodes
    ensures forall i :: 0 <= i < |order + [n]| ==> (order + [n])[i] in nodes[n := node]
    ensures Contents(nodes[n := node], order + [n]) == Contents(nodes, order) + [(node.from, node.body)]
  {
    hide Distinct;
    forall i | 0 <= i < |order| ensures order[i] in nodes && order[i] != n {
      assert order[i] in order;
    }
  }

  lemma ExchangeKeeps(q: Queue, order: seq<NodeId>, e: Event)
    requires Faithful(q, order) && e.Exchange? && Enabled(q, e)
    ensures Faithful(Apply(q, e), order + [e.node])
  {
    hide Waits, Waiting, Listed, Linked, Contents;
    assert e.node !in order by { ListedNodes(q.nodes, order); }
    ExchangeWaits(q.pending, order, e.p, e.node);
    ExchangeLinked(q.nodes, q.head, order, Waiting(q.pending), e.node, Node(e.p, e.body, None));
    ExchangeContents(q.nodes, order, e.node, Node(e.p, e.body, None));
  }

  lemma ListedNodes(nodes: map<NodeId, Node>, order: seq<NodeId>)
    requires Listed(nodes, order)
    ensures forall n :: n in nodes <==> n in order
  {
  }

  lemma LinkWaits(pending: map<Producer, Pending>, order: seq<NodeId>, p: Producer) returns (i: nat)
    requires Waits(pending, order) && p in pending
    ensures WaitsAt(pending[p], order, i) && order[i] in Waiting(pending)
    ensures Waits(pending - {p}, order) && Waiting(pending - {p}) == Waiting(pending) - {order[i]}
  {
    i :| WaitsAt(pending[p], order, i);
    var pending' := pending - {p};
    forall r | r in pending' ensures exists k :: WaitsAt(pending'[r], order, k) {
      assert pending'[r] == pending[r];
    }
    forall m ensures m in Waiting(pending') <==> m in Waiting(pending) - {order[i]} {
      if m in Waiting(pending) - {order[i]} {
        var r :| r in pending && pending[r].node == m;
        assert r in pending';
      }
    }
  }

  /** Writing the link to the node at position `i`. */
  lemma LinkLinked(nodes: map<NodeId, Node>, head: Option<NodeId>, order: seq<NodeId>, w: set<NodeId>, i: nat)
    requires Listed(nodes, order) && Linked(nodes, head, order, w) && i < |order|
    ensures i == 0 ==> Linked(nodes, Some(order[0]), order, w - {order[0]})
    ensures i > 0 ==>
              && order[i - 1] in nodes
              && var nodes' := nodes[order[i - 1] := nodes[order[i - 1]].(next := Some(order[i]))];
                 && Listed(nodes', order)
                 && Linked(nodes', head, order, w - {order[i]})
  {
    hide Distinct;
    DistinctFrom(order, i);
    if i > 0 {
      DistinctFrom(order, i - 1);
      var nodes' := nodes[order[i - 1] := nodes[order[i - 1]].(next := Some(order[i]))];
      forall k | 0 <= k < |order| ensures nodes'[order[k]].next == LinkTo(order, k + 1, w - {order[i]}) {
        assert order[k] in nodes && nodes[order[k]].next == LinkTo(order, k + 1, w);
      }
    } else {
      forall k | 0 <= k < |order| ensures nodes[order[k]].next == LinkTo(order, k + 1, w - {order[0]}) {
        assert order[k] in nodes && nodes[order[k]].next == LinkTo(order, k + 1, w);
      }
    }
  }

  lemma LinkContents(nodes: map<NodeId, Node>, order: seq<NodeId>, n: NodeId, next: Option<NodeId>)
    requires Listed(nodes, order) && n in nodes
    ensures forall i :: 0 <= i < |order| ==> order[i] in nodes[n := nodes[n].(next := next)]
    ensures Contents(nodes[n := nodes[n].(next := next)], order) == Contents(nodes, order)
  {
    hide Distinct;
    var nodes' := nodes[n := nodes[n].(next := next)];
    forall i | 0 <= i < |order|
      ensures order[i] in nodes' && nodes'[order[i]].from == nodes[order[i]].from && nodes'[order[i]].body == nodes[order[i]].body
    {
      assert order[i] in order;
    }
  }

  lemma LinkKeeps(q: Queue, order: seq<NodeId>, e: Event)
    requires Faithful(q, order) && e.Link? && Enabled(q, e)
    ensures Faithful(Apply(q, e), order)
  {
    hide Waits, Waiting, Listed, Linked, Contents;
    var i := LinkWaits(q.pending, order, e.p);
    LinkLinked(q.nodes, q.head, order, Waiting(q.pending), i);
    if i > 0 {
      LinkContents(q.nodes, order, order[i - 1], Some(order[i]));
    }
  }

  lemma NothingWaits(q: Queue)
    requires q.pending == map[]
    ensures Waiting(q.pending) == {} && forall order :: Waits(q.pending, order)
  {
  }

  lemma DequeueLinked(nodes: map<NodeId, Node>, head: Option<NodeId>, order: seq<NodeId>, w: set<NodeId>)
    requires Listed(nodes, order) && Linked(nodes, head, order, w) && order != []
    requires order[0] !in w && (|order| > 1 ==> order[1] !in w)
    ensures head == Some(order[0]) && order[0] in nodes
    ensures nodes[order[0]].next.None? <==> |order| == 1
    ensures var nodes' := nodes - {order[0]};
            && Listed(nodes', order[1..])
            && Linked(nodes', nodes[order[0]].next, order[1..], w)
  {
    var order', nodes' := order[1..], nodes - {order[0]};
    assert Distinct(order');
    DistinctFrom(order, 0);
    hide Distinct;
    assert nodes[order[0]].next == LinkTo(order, 1, w) == LinkTo(order', 0, w);
    forall i | 0 <= i < |order'|
      ensures order'[i] in nodes' && nodes'[order'[i]].next == LinkTo(order', i + 1, w)
    {
      assert order'[i] == order[i + 1] && order[i + 1] in nodes;
      assert nodes[order[i + 1]].next == LinkTo(order, i + 2, w) == LinkTo(order', i + 1, w);
    }
    forall n ensures n in nodes' <==> n in order' {
      if n in nodes' {
        var k :| 0 <= k < |order| && order[k] == n;
        assert order'[k - 1] == n;
      }
    }
  }

  /** Producers waiting further back than the second node still wait for the same links. */
  lemma DequeueWaits(pending: map<Producer, Pending>, order: seq<NodeId>)
    requires Waits(pending, order) && order != []
    requires order[0] !in Waiting(pending) && (|order| > 1 ==> order[1] !in Waiting(pending))
    ensures Waits(pending, order[1..])
  {
    forall p | p in pending ensures exists i :: WaitsAt(pending[p], order[1..], i) {
      var i :| WaitsAt(pending[p], order, i);
      assert order[i] in Waiting(pending);
      assert WaitsAt(pending[p], order[1..], i - 1);
    }
  }

  /** What the head and its link say about the nodes still waiting. */
  lemma FrontLinked(q: Queue, order: seq<NodeId>)
    requires Inv(q, order) && q.head.Some?
    ensures order != [] && q.head == Some(order[0]) && order[0] in q.nodes && order[0] !in Waiting(q.pending)
    ensures q.nodes[order[0]].next.Some? <==> |order| > 1 && order[1] !in Waiting(q.pending)
    ensures |order| == 1 ==> q.pending == map[]
  {
    hide Distinct;
    assert q.head == LinkTo(order, 0, Waiting(q.pending)) && order[0] in order;
    forall p | p in q.pending ensures |order| > 1 {
      var i :| WaitsAt(q.pending[p], order, i);
      assert order[i] in Waiting(q.pending);
    }
    assert |order| > 1 || q.pending == map[];
  }

  lemma DequeueContents(nodes: map<NodeId, Node>, order: seq<NodeId>)
    requires Listed(nodes, order) && order != []
    ensures order[0] in nodes && forall i :: 0 <= i < |order[1..]| ==> order[1..][i] in nodes - {order[0]}
    ensures Contents(nodes, order)
         == [(nodes[order[0]].from, nodes[order[0]].body)] + Contents(nodes - {order[0]}, order[1..])
  {
    hide Distinct;
    DistinctFrom(order, 0);
    forall i | 0 <= i < |order[1..]| ensures order[1..][i] in nodes - {order[0]} {
      assert order[1..][i] == order[i + 1] && order[i + 1] in order;
    }
  }

  lemma DequeueKeeps(q: Queue, order: seq<NodeId>)
    requires Faithful(q, order) && Enabled(q, Dequeue)
    ensures q.head.Some? ==> order != []
    ensures Faithful(Apply(q, Dequeue), if q.head.None? then order else order[1..])
  {
    hide Waits, Waiting, Listed, Linked, Contents;
    if q.head.Some? {
      FrontLinked(q, order);
      if q.nodes[order[0]].next.None? {
        NothingWaits(q);
      }
      DequeueLinked(q.nodes, q.head, order, Waiting(q.pending));
      DequeueWaits(q.pending, order);
      DequeueContents(q.nodes, order);
      var q', order' := Apply(q, Dequeue), order[1..];
      var first := [(q.nodes[order[0]].from, q.nodes[order[0]].body)];
      assert q.received + (first + Contents(q'.nodes, order')) == (q.received + first) + Contents(q'.nodes, order');
      assert q'.tail == At(order', |order'| - 1);
    }
  }

  /** A dequeue keeps the list whole exactly when the message behind the first is linked or no
      link is pending.  Otherwise it clears the tail and loses every message behind the first. */
  lemma DequeueExactly(q: Queue, order: seq<NodeId>)
    requires Faithful(q, order) && q.head.Some?
    ensures q.head.value in q.nodes
    ensures (exists order' :: Faithful(TakeHead(q), order')) <==> q.nodes[q.head.value].next.Some? || q.pending == map[]
  {
    hide Waits, Waiting, Listed, Linked, Contents;
    FrontLinked(q, order);
    if q.nodes[q.head.value].next.Some? || q.pending == map[] {
      DequeueKeeps(q, order);
    } else {
      EarlyDequeueLoses(q, order);
    }
  }

  lemma EarlyDequeueLoses(q: Queue, order: seq<NodeId>)
    requires Inv(q, order) && q.head.Some? && q.head.value in q.nodes
    requires q.nodes[q.head.value].next.None? && q.pending != map[]
    ensures TakeHead(q).tail.None? && |order| > 1 && order[1] in TakeHead(q).nodes
    ensures forall order' :: !Inv(TakeHead(q), order')
  {
    hide Waits, Waiting, Linked, Distinct;
    FrontLinked(q, order);
    DistinctFrom(order, 0);
    assert order[1] in order;
    var q' := TakeHead(q);
    hide Inv;
    forall order' ensures !Inv(q', order') {
      TailFindsAll(q', order', order[1]);
    }
  }

  lemma TailFindsAll(q: Queue, order: seq<NodeId>, n: NodeId)
    requires q.tail.None? && n in q.nodes
    ensures !Inv(q, order)
  {
  }

  /** A producer between its steps can always take the second. */
  lemma LinkIsEnabled(q: Queue, order: seq<NodeId>, p: Producer)
    requires Faithful(q, order) && p in q.pending
    ensures Enabled(q, Link(p))
  {
    hide Contents, Linked;
    var i :| WaitsAt(q.pending[p], order, i);
    if i > 0 {
      assert order[i - 1] in order;
    }
  }

  lemma EmptyHead(nodes: map<NodeId, Node>, head: Option<NodeId>)
    requires Linked(nodes, head, [], {})
    ensures head == None
  {
  }

  // ---------- whole runs ----------

  /** A run: events, each enabled where it happens. */
  ghost predicate Run(q: Queue, es: seq<Event>, q': Queue)
    decreases |es|
  {
    if es == [] then q' == q else Enabled(q, es[0]) && Run(Apply(q, es[0]), es[1..], q')
  }

  lemma {:induction false} RunKeeps(q: Queue, order: seq<NodeId>, es: seq<Event>, q': Queue) returns (order': seq<NodeId>)
    requires Faithful(q, order) && Run(q, es, q')
    ensures Faithful(q', order')
    decreases |es|
  {
    hide Inv, Faithful, Enabled, Apply;
    if es == [] {
      order' := order;
    } else {
      var next := order;
      match es[0] {
        case Exchange(_, n, _) => ExchangeKeeps(q, order, es[0]); next := order + [n];
        case Link(_) => LinkKeeps(q, order, es[0]);
        case Dequeue => DequeueKeeps(q, order); next := if q.head.None? then order else order[1..];
      }
      order' := RunKeeps(Apply(q, es[0]), next, es[1..], q');
    }
  }

  /** `xs` is what following `next` from `from` visits. */
  ghost predicate Chain(q: Queue, from: Option<NodeId>, xs: seq<NodeId>)
    decreases |xs|
  {
    if xs == [] then from.None?
    else from == Some(xs[0]) && xs[0] in q.nodes && Chain(q, q.nodes[xs[0]].next, xs[1..])
  }

  lemma {:induction false} QuietSuffixIsChain(q: Queue, order: seq<NodeId>, i: nat)
    requires Inv(q, order) && q.pending == map[] && i <= |order|
    ensures Chain(q, At(order, i), order[i..])
    decreases |order| - i
  {
    if i < |order| {
      NothingWaits(q);
      QuietSuffixIsChain(q, order, i + 1);
      assert order[i..][1..] == order[i + 1..];
      assert q.nodes[order[i]].next == At(order, i + 1);
    }
  }

  /** After any interleaving, whenever no link is pending: the chain from head visits every
      node in use once, its messages are those sent and not yet taken out, in exchange order,
      and the tail is its last node. */
  lemma QuietQueueIsFifo(es: seq<Event>, q: Queue) returns (order: seq<NodeId>)
    requires Run(EmptyQueue, es, q) && q.pending == map[]
    ensures Chain(q, q.head, order)
    ensures (forall i, j :: 0 <= i < j < |order| ==> order[i] != order[j]) && (forall n :: n in q.nodes <==> n in order)
    ensures q.tail == At(order, |order| - 1)
    ensures q.sent == q.received + Contents(q.nodes, order)
  {
    hide Run;
    assert Contents(EmptyQueue.nodes, []) == [];
    assert Faithful(EmptyQueue, []);
    order := RunKeeps(EmptyQueue, [], es, q);
    QuietSuffixIsChain(q, order, 0);
    assert order[0..] == order;
  }

  /** What one producer contributed. */
  function Of(p: Producer, ms: seq<(Producer, Term)>): seq<Term> {
    if ms == [] then []
    else Of(p, ms[..|ms| - 1]) + if ms[|ms| - 1].0 == p then [ms[|ms| - 1].1] else []
  }

  lemma {:induction false} OfConcat(p: Producer, xs: seq<(Producer, Term)>, ys: seq<(Producer, Term)>)
    ensures Of(p, xs + ys) == Of(p, xs) + Of(p, ys)
    decreases |ys|
  {
    if ys == [] {
      assert xs + ys == xs;
    } else {
      var n := |ys| - 1;
      assert (xs + ys)[..|xs| + n] == xs + ys[..n];
      OfConcat(p, xs, ys[..n]);
    }
  }

  /** Each producer's messages come out in the order it sent them: what has been taken out is
      a prefix of what it sent, and the rest is in the queue. */
  lemma PerProducerOrder(es: seq<Event>, q: Queue, p: Producer) returns (order: seq<NodeId>)
    requires Run(EmptyQueue, es, q) && q.pending == map[]
    ensures forall n :: n in order ==> n in q.nodes
    ensures Of(p, q.sent) == Of(p, q.received) + Of(p, Contents(q.nodes, order))
    ensures Of(p, q.received) <= Of(p, q.sent)
  {
    order := QuietQueueIsFifo(es, q);
    OfConcat(p, q.received, Contents(q.nodes, order));
  }

  function DequeueAll(q: Queue, n: nat): Queue
    decreases n
  {
    if n == 0 || !Enabled(q, Dequeue) then q else DequeueAll(Apply(q, Dequeue), n - 1)
  }

  /** From a quiet state, as many dequeues as there are nodes take out everything sent, in
      order, and leave the empty queue, ready for the next phase. */
  lemma {:induction false} DrainReturnsAll(q: Queue, order: seq<NodeId>)
    requires Faithful(q, order) && q.pending == map[]
    ensures var q' := DequeueAll(q, |order|);
            && q'.received == q'.sent == q.sent
            && q' == EmptyQueue.(sent := q.sent, received := q.sent)
    decreases |order|
  {
    hide Listed, Linked, Waits, Waiting;
    NothingWaits(q);
    if order == [] {
      ListedNodes(q.nodes, order);
      EmptyHead(q.nodes, q.head);
      assert q.nodes == map[];
    } else {
      DequeueLinked(q.nodes, q.head, order, {});
      DequeueKeeps(q, order);
      DrainReturnsAll(Apply(q, Dequeue), order[1..]);
    }
  }
}
