/** The linked mailbox, and selective receive driven over it. */
module ErlMessage {
  import opened BeamCore
  import opened Sequences
  import opened MailboxModel
  import opened MailboxReceive

  class Message {
    const body: Term
    var next: Message?

    constructor (body: Term)
      ensures this.body == body && next == null
    {
      this.body := body;
      next := null;
    }
  }

  ghost function BodiesOf(ns: seq<Message>): (q: seq<Term>)
    ensures |q| == |ns| && forall i :: 0 <= i < |q| ==> q[i] == ns[i].body
  {
    seq(|ns|, i requires 0 <= i < |ns| => ns[i].body)
  }

  /** The node at an index of the chain, null past either end. */
  ghost function At(ns: seq<Message>, i: int): Message? {
    if 0 <= i < |ns| then ns[i] else null
  }

  /** The chain without node `i`. */
  lemma Unlinked(ns: seq<Message>, i: nat) returns (rest: seq<Message>)
    requires Distinct(ns) && i < |ns|
    ensures |rest| == |ns| - 1 && Distinct(rest)
    ensures forall k {:trigger At(rest, k)} :: At(rest, k) == At(ns, if k < i then k else k + 1)
    ensures forall k {:trigger rest[k]} :: 0 <= k < |rest| ==> rest[k] == ns[if k < i then k else k + 1]
    ensures BodiesOf(rest) == Without(BodiesOf(ns), i)
  {
    rest := ns[..i] + ns[i + 1..];
  }

  class Mailbox {
    var head: Message?
    var tail: Message?
    var saveCursor: Message?
    var savePrev: Message?
    var count: nat

    ghost var nodes: seq<Message>      // the chain from head
    ghost var cursor: Option<nat>      // index of the save cursor

    ghost predicate Valid()
      reads this, nodes
    {
      && Distinct(nodes)
      && head == At(nodes, 0)
      && tail == At(nodes, |nodes| - 1)
      && (forall i {:trigger nodes[i].next} :: 0 <= i < |nodes| ==> nodes[i].next == At(nodes, i + 1))
      && count == |nodes|
      && match cursor
         case None => saveCursor == null
         case Some(i) => i < |nodes| && saveCursor == nodes[i] && savePrev == At(nodes, i - 1)
    }

    ghost function Bodies(): (q: seq<Term>)
      reads this
    {
      BodiesOf(nodes)
    }

    /** The queue and cursor this list stands for. */
    ghost function Abs(): Mbox
      reads this
    {
      Mbox(Bodies(), cursor)
    }

    constructor ()
      ensures Valid() && Abs() == Mbox([], None) && nodes == []
    {
      head, tail, saveCursor, savePrev, count := null, null, null, null, 0;
      nodes, cursor := [], None;
    }

    /** Exchange and link, with nothing in between. */
    method EnqueueMessage(msg: Term)
      requires Valid()
      modifies this, nodes
      ensures Valid() && Abs() == Enqueue(old(Abs()), msg) == Mbox(old(Bodies()) + [msg], old(cursor))
      ensures |nodes| == |old(nodes)| + 1 && nodes[..|old(nodes)|] == old(nodes) && fresh(nodes[|old(nodes)|])
    {
      var node := new Message(msg);
      var prevTail := tail;
      tail := node;
      if prevTail == null {
        head := node;
      } else {
        prevTail.next := node;
      }
      count := count + 1;
      nodes := nodes + [node];
      assert Bodies() == old(Bodies()) + [msg];
    }

    /** Takes the first message.  The node is released, so the cursor must not rest on it nor
        remember it as the predecessor. */
    method DequeueMessage() returns (status: Status, msg: Term)
      requires Valid() && (cursor.None? || cursor.value >= 2)
      modifies this
      ensures Valid()
      ensures old(Bodies()) == [] ==> status == NotFound && Abs() == old(Abs()) && nodes == old(nodes)
      ensures old(Bodies()) != [] ==>
                && status == Ok && msg == old(Bodies())[0]
                && Abs() == Mbox(old(Bodies())[1..], if old(cursor).None? then None else Some(old(cursor).value - 1))
    {
      hide BodiesOf, Distinct;
      if head == null {
        return NotFound, Raw(0);
      }
      DistinctFrom(nodes, 0);
      var node := head;
      msg := node.body;
      head := node.next;
      if head == null {
        tail := null;
      }
      count := count - 1;
      nodes := Unlinked(nodes, 0);
      if cursor.Some? {
        cursor := Some(cursor.value - 1);
      }
      status := Ok;
    }

    method ResetSaveCursor()
      requires Valid()
      modifies this`saveCursor, this`savePrev, this`cursor
      ensures Valid() && Abs() == Reset(old(Abs())) == Mbox(old(Bodies()), if old(Bodies()) == [] then None else Some(0))
    {
      saveCursor, savePrev := head, null;
      cursor := if head == null then None else Some(0);
    }

    /** LOOP_REC: the message under the cursor; a null cursor starts again at the head. */
    method PeekSave() returns (status: Status, msg: Term)
      requires Valid()
      modifies this`saveCursor, this`savePrev, this`cursor
      ensures Valid() && Abs() == Peek(old(Abs()))
      ensures Bodies() == old(Bodies()) && (old(cursor).Some? ==> cursor == old(cursor))
      ensures old(cursor).None? ==> cursor == if Bodies() == [] then None else Some(0)
      ensures status == (if Abs().queue == [] then NotFound else Ok)
      ensures status == Ok ==> cursor.Some? && msg == Abs().queue[cursor.value]
    {
      if saveCursor == null {
        ResetSaveCursor();
      }
      if saveCursor == null {
        return NotFound, Raw(0);
      }
      return Ok, saveCursor.body;
    }

    /** LOOP_REC_END. */
    method AdvanceSave()
      requires Valid()
      modifies this`saveCursor, this`savePrev, this`cursor
      ensures Valid() && Abs() == Advance(old(Abs())) && Bodies() == old(Bodies())
      ensures old(cursor).Some? ==> cursor == if old(cursor).value + 1 < |Bodies()| then Some(old(cursor).value + 1) else None
    {
      if saveCursor != null {
        savePrev := saveCursor;
        saveCursor := saveCursor.next;
        cursor := if cursor.value + 1 < |nodes| then Some(cursor.value + 1) else None;
      }
    }

    /** REMOVE_MESSAGE: unlinks the message under the cursor, wherever it stands. */
    method RemoveCurrentMessage() returns (status: Status)
      requires Valid()
      modifies this, nodes
      ensures Valid() && InQueue(old(Abs())) && Abs() == RemoveCurrent(old(Abs()))
      ensures status == (if old(cursor).None? then NotFound else Ok)
    {
      hide BodiesOf, Distinct;
      if saveCursor == null {
        return NotFound;
      }
      ghost var i, ns := cursor.value, nodes;
      DistinctFrom(ns, i);
      DistinctFrom(ns, |ns| - 1);
      if i > 0 {
        DistinctFrom(ns, i - 1);
      }
      var target := saveCursor;
      var next := target.next;
      if savePrev != null {
        savePrev.next := next;
      } else {
        head := next;
      }
      if target == tail {
        tail := savePrev;
      }
      saveCursor := next;
      count := count - 1;
      cursor := if i + 1 < |ns| then Some(i) else None;
      nodes := Unlinked(ns, i);
      status := Ok;
    }
  }

  /** The receive loop over the list with a test `p` some message passes: it ends, takes the
      earliest such message and leaves the others in order. */
  method SelectiveReceive(mbox: Mailbox, p: Term -> bool) returns (msg: Term, ghost i: nat)
    requires mbox.Valid() && HasMatch(mbox.Bodies(), p)
    modifies mbox, mbox.nodes
    ensures mbox.Valid()
    ensures FirstMatch(old(mbox.Bodies()), p, i)
    ensures msg == old(mbox.Bodies())[i] && mbox.Bodies() == Without(old(mbox.Bodies()), i)
  {
    hide BodiesOf, Distinct, Mailbox.Valid, HasMatch;
    ghost var q := mbox.Bodies();
    ghost var hit := AnyMatch(q, p);
    mbox.ResetSaveCursor();
    i := 0;
    while true
      invariant mbox.Valid() && mbox.nodes == old(mbox.nodes) && mbox.Abs() == Mbox(q, Some(i))
      invariant i <= hit && forall j :: 0 <= j < i ==> !p(q[j])
      decreases hit - i
    {
      var status;
      status, msg := mbox.PeekSave();
      if p(msg) {
        status := mbox.RemoveCurrentMessage();
        return;
      }
      mbox.AdvanceSave();
      i := i + 1;
    }
  }
}
