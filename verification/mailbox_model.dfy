/** The mailbox as a queue with a save cursor: what every operation on the linked
    mailbox means. */
module MailboxModel {
  import opened BeamCore

  /** `cursor` is the index of the message the save cursor points at; `None` is the null
      cursor, which is also where the cursor lands after the last message. */
  datatype Mbox = Mbox(queue: seq<Term>, cursor: Option<nat>)

  predicate InQueue(mb: Mbox) {
    mb.cursor.Some? ==> mb.cursor.value < |mb.queue|
  }

  function Enqueue(mb: Mbox, msg: Term): Mbox {
    mb.(queue := mb.queue + [msg])
  }

  function Reset(mb: Mbox): Mbox {
    mb.(cursor := if mb.queue == [] then None else Some(0))
  }

  /** A null cursor restarts at the head, so a cursor that ran past the end wraps. */
  function Peek(mb: Mbox): Mbox {
    if mb.cursor.None? then Reset(mb) else mb
  }

  function Advance(mb: Mbox): Mbox {
    match mb.cursor
    case None => mb
    case Some(i) => mb.(cursor := if i + 1 < |mb.queue| then Some(i + 1) else None)
  }

  function Without(q: seq<Term>, i: nat): seq<Term>
    requires i < |q|
  {
    q[..i] + q[i + 1..]
  }

  function RemoveCurrent(mb: Mbox): Mbox
    requires InQueue(mb)
  {
    match mb.cursor
    case None => mb
    case Some(i) => Mbox(Without(mb.queue, i), if i + 1 < |mb.queue| then Some(i) else None)
  }

  /** Removal closes the gap, and the cursor comes to rest on the message that followed. */
  lemma RemovalClosesGap(mb: Mbox)
    requires InQueue(mb) && mb.cursor.Some?
    ensures var i, r := mb.cursor.value, RemoveCurrent(mb);
            && |r.queue| == |mb.queue| - 1
            && (forall k :: 0 <= k < |r.queue| ==> r.queue[k] == mb.queue[if k < i then k else k + 1])
            && (r.cursor.None? <==> i == |mb.queue| - 1)
            && (r.cursor.Some? ==> r.cursor.value < |r.queue| && r.queue[r.cursor.value] == mb.queue[i + 1])
  {
  }
}
