/** Selective receive as turns of LOOP_REC, test, REMOVE_MESSAGE or LOOP_REC_END. */
module MailboxReceive {
  import opened BeamCore
  import opened MailboxModel

  datatype Turn = Searching(mb: Mbox) | Got(msg: Term, mb: Mbox) | Failed(mb: Mbox)

  function OneTurn(mb: Mbox, p: Term -> bool): Turn
    requires InQueue(mb)
  {
    var m := Peek(mb);
    if m.cursor.None? then Failed(Reset(m))
    else
      var msg := m.queue[m.cursor.value];
      if p(msg) then Got(msg, RemoveCurrent(m)) else Searching(Advance(m))
  }

  function Turns(mb: Mbox, p: Term -> bool, n: nat): Turn
    requires InQueue(mb)
    decreases n
  {
    if n == 0 then Searching(mb)
    else
      match OneTurn(mb, p)
      case Searching(mb') => Turns(mb', p, n - 1)
      case t => t
  }

  predicate FirstMatch(q: seq<Term>, p: Term -> bool, i: nat) {
    i < |q| && p(q[i]) && forall j :: 0 <= j < i ==> !p(q[j])
  }

  /** From position `c` the loop reaches the first match after it in as many turns as there
      are messages to look at, and takes exactly that message. */
  lemma {:induction false} FindsFirstMatch(q: seq<Term>, p: Term -> bool, i: nat, c: nat)
    requires FirstMatch(q, p, i) && c <= i
    ensures Turns(Mbox(q, Some(c)), p, i - c + 1)
         == Got(q[i], Mbox(Without(q, i), if i + 1 < |q| then Some(i) else None))
    decreases i - c
  {
    if c < i {
      assert OneTurn(Mbox(q, Some(c)), p) == Searching(Mbox(q, Some(c + 1)));
      FindsFirstMatch(q, p, i, c + 1);
    } else {
      assert OneTurn(Mbox(q, Some(c)), p).Got?;
    }
  }

  /** With messages but no match the loop never takes its fail branch: the cursor wraps and
      the search goes on for ever. */
  lemma {:induction false} NoMatchSpins(mb: Mbox, p: Term -> bool, n: nat)
    requires InQueue(mb) && mb.queue != [] && forall i :: 0 <= i < |mb.queue| ==> !p(mb.queue[i])
    ensures Turns(mb, p, n).Searching? && Turns(mb, p, n).mb.queue == mb.queue
    decreases n
  {
    if n > 0 {
      NoMatchSpins(OneTurn(mb, p).mb, p, n - 1);
    }
  }

  predicate HasMatch(q: seq<Term>, p: Term -> bool) {
    exists i :: 0 <= i < |q| && p(q[i])
  }

  lemma AnyMatch(q: seq<Term>, p: Term -> bool) returns (k: nat)
    requires HasMatch(q, p)
    ensures k < |q| && p(q[k])
  {
    k :| 0 <= k < |q| && p(q[k]);
  }

  lemma {:induction false} FirstMatchExists(q: seq<Term>, p: Term -> bool, k: nat) returns (i: nat)
    requires k < |q| && p(q[k])
    ensures FirstMatch(q, p, i) && i <= k
    decreases k
  {
    if j :| 0 <= j < k && p(q[j]) {
      i := FirstMatchExists(q, p, j);
    } else {
      i := k;
    }
  }

  /** A receive loop started at the head ends exactly when the mailbox is empty or some
      message matches. */
  lemma ReceiveEndsIff(q: seq<Term>, p: Term -> bool)
    ensures (exists n: nat :: !Turns(Reset(Mbox(q, None)), p, n).Searching?) <==> q == [] || HasMatch(q, p)
  {
    var mb := Reset(Mbox(q, None));
    if q == [] {
      assert Turns(mb, p, 1).Failed?;
    } else if HasMatch(q, p) {
      var k :| 0 <= k < |q| && p(q[k]);
      var i := FirstMatchExists(q, p, k);
      FindsFirstMatch(q, p, i, 0);
      assert !Turns(mb, p, i + 1).Searching?;
    } else {
      forall n: nat ensures Turns(mb, p, n).Searching? {
        NoMatchSpins(mb, p, n);
      }
    }
  }

  // ---------- messages arriving during the search ----------

  function Arrive(mb: Mbox, msgs: seq<Term>): Mbox
    decreases |msgs|
  {
    if msgs == [] then mb else Arrive(Enqueue(mb, msgs[0]), msgs[1..])
  }

  /** Arrivals go to the end and leave the cursor on its message. */
  lemma {:induction false} ArrivalsKeepCursor(mb: Mbox, msgs: seq<Term>)
    requires InQueue(mb)
    ensures Arrive(mb, msgs) == Mbox(mb.queue + msgs, mb.cursor)
    ensures mb.cursor.Some? ==> Arrive(mb, msgs).queue[mb.cursor.value] == mb.queue[mb.cursor.value]
    decreases |msgs|
  {
    if msgs == [] {
      assert mb.queue + msgs == mb.queue;
    } else {
      ArrivalsKeepCursor(Enqueue(mb, msgs[0]), msgs[1..]);
      assert mb.queue + [msgs[0]] + msgs[1..] == mb.queue + msgs;
    }
  }

  /** One turn for each entry; `arrivals[k]` come in just before turn `k`. */
  function TurnsAmid(mb: Mbox, p: Term -> bool, arrivals: seq<seq<Term>>): Turn
    requires InQueue(mb)
    decreases |arrivals|
  {
    if arrivals == [] then Searching(mb)
    else
      ArrivalsKeepCursor(mb, arrivals[0]);
      match OneTurn(Arrive(mb, arrivals[0]), p)
      case Searching(mb') => TurnsAmid(mb', p, arrivals[1..])
      case t => t
  }

  function Joined(arrivals: seq<seq<Term>>): seq<Term> {
    if arrivals == [] then [] else arrivals[0] + Joined(arrivals[1..])
  }

  function Start(mb: Mbox): nat {
    if mb.cursor.Some? then mb.cursor.value else 0
  }

  /** The messages the cursor has passed do not match. */
  predicate PassedOver(mb: Mbox, p: Term -> bool) {
    InQueue(mb) && forall j :: 0 <= j < Start(mb) ==> !p(mb.queue[j])
  }

  lemma TurnFrom(q: seq<Term>, cursor: Option<nat>, p: Term -> bool)
    requires PassedOver(Mbox(q, cursor), p) && q != []
    ensures var c, t := Start(Mbox(q, cursor)), OneTurn(Mbox(q, cursor), p);
            && c < |q|
            && (p(q[c]) ==>
                  FirstMatch(q, p, c) && t == Got(q[c], Mbox(Without(q, c), if c + 1 < |q| then Some(c) else None)))
            && (!p(q[c]) ==>
                  t == Searching(Mbox(q, if c + 1 < |q| then Some(c + 1) else None)) && PassedOver(t.mb, p))
  {
  }

  /** Whatever arrives meanwhile, the loop takes the oldest message that matches among all there
      are at that moment, and leaves the others in order. */
  lemma {:induction false} TakesOldestMatch(mb: Mbox, p: Term -> bool, arrivals: seq<seq<Term>>) returns (n: nat, i: nat)
    requires PassedOver(mb, p)
    ensures n <= |arrivals|
    ensures var t, q := TurnsAmid(mb, p, arrivals), mb.queue + Joined(arrivals[..n]);
            t.Got? ==> FirstMatch(q, p, i) && t.msg == q[i] && t.mb.queue == Without(q, i)
    decreases |arrivals|
  {
    hide Without, FirstMatch, OneTurn;
    n, i := 0, 0;
    if arrivals != [] {
      ArrivalsKeepCursor(mb, arrivals[0]);
      var q := mb.queue + arrivals[0];
      var t := OneTurn(Mbox(q, mb.cursor), p);
      if q == [] {
        NothingThere(mb.cursor, p);
      } else {
        TurnFrom(q, mb.cursor, p);
        if t.Got? {
          n, i := 1, Start(mb);
          assert arrivals[..1] == [arrivals[0]] && Joined([arrivals[0]]) == arrivals[0] + [] == arrivals[0];
        } else {
          n, i := TakesOldestMatch(t.mb, p, arrivals[1..]);
          JoinedMore(q, mb.queue, arrivals, n);
          n := n + 1;
        }
      }
    }
  }

  lemma NothingThere(cursor: Option<nat>, p: Term -> bool)
    requires InQueue(Mbox([], cursor))
    ensures OneTurn(Mbox([], cursor), p).Failed?
  {
  }

  lemma JoinedMore(q: seq<Term>, q0: seq<Term>, arrivals: seq<seq<Term>>, n: nat)
    requires n < |arrivals| && q == q0 + arrivals[0]
    ensures q + Joined(arrivals[1..][..n]) == q0 + Joined(arrivals[..n + 1])
  {
    assert arrivals[..n + 1][0] == arrivals[0] && arrivals[..n + 1][1..] == arrivals[1..][..n];
  }

  /** A match that is there is taken in as many turns as there are messages up to it, whatever
      arrives behind it. */
  lemma {:induction false} FindsMatchAmid(mb: Mbox, p: Term -> bool, i: nat, arrivals: seq<seq<Term>>)
    requires PassedOver(mb, p) && FirstMatch(mb.queue, p, i) && |arrivals| == i - Start(mb) + 1
    ensures var q := mb.queue + Joined(arrivals);
            TurnsAmid(mb, p, arrivals) == Got(mb.queue[i], Mbox(Without(q, i), if i + 1 < |q| then Some(i) else None))
    decreases |arrivals|
  {
    hide Without, OneTurn;
    ArrivalsKeepCursor(mb, arrivals[0]);
    var q := mb.queue + arrivals[0];
    TurnFrom(q, mb.cursor, p);
    if Start(mb) == i {
      assert arrivals == [arrivals[0]] && Joined(arrivals) == arrivals[0] + [] == arrivals[0];
    } else {
      FindsMatchAmid(OneTurn(Mbox(q, mb.cursor), p).mb, p, i, arrivals[1..]);
      assert q + Joined(arrivals[1..]) == mb.queue + Joined(arrivals);
    }
  }
}
