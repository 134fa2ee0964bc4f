/** Interning from many threads: the read-locked probe and the write-locked probe-then-insert
    are one step each, interleaved in any way.  `AtomTableList` shows that the locked regions
    do to the list of names what these steps do. */
module AtomConcurrent {
  import opened BeamCore
  import opened ByteStrings
  import opened Sequences
  import opened AtomTableList

  type Thread = nat

  /** The names by index, the threads whose read-locked probe missed, the answers given. */
  datatype Atoms = Atoms(names: seq<Name>, missed: map<Thread, Name>, answers: seq<(Name, Term)>)

  datatype Event = Probe(thread: Thread, name: Name) | Write(thread: Thread)

  predicate Enabled(s: Atoms, e: Event) {
    match e
    case Probe(th, _) => th !in s.missed
    case Write(th) => th in s.missed
  }

  function IndexOf(names: seq<Name>, name: Name): (i: nat)
    ensures i <= |names| && (i < |names| ==> names[i] == name)
    ensures i == |names| <==> name !in names
  {
    if names == [] then 0
    else if names[0] == name then 0
    else 1 + IndexOf(names[1..], name)
  }

  function Apply(s: Atoms, e: Event): Atoms
    requires Enabled(s, e)
  {
    match e
    case Probe(th, name) =>
      if name in s.names then s.(answers := s.answers + [(name, Atom(IndexOf(s.names, name)))])
      else s.(missed := s.missed[th := name])
    case Write(th) =>
      var name := s.missed[th];
      var names := Interned(s.names, name);
      Atoms(names, s.missed - {th}, s.answers + [(name, Atom(IndexOf(names, name)))])
  }

  /** Every answer given so far is the index of its name. */
  predicate AnswersHold(names: seq<Name>, answers: seq<(Name, Term)>) {
    forall k :: 0 <= k < |answers| ==>
      answers[k].1.Atom? && answers[k].1.index < |names| && names[answers[k].1.index] == answers[k].0
  }

  predicate Consistent(s: Atoms) {
    Distinct(s.names) && AnswersHold(s.names, s.answers)
  }

  lemma StepKeeps(s: Atoms, e: Event)
    requires Consistent(s) && Enabled(s, e)
    ensures Consistent(Apply(s, e)) && s.names <= Apply(s, e).names && s.answers <= Apply(s, e).answers
  {
    hide IndexOf;
  }

  ghost predicate Run(s: Atoms, es: seq<Event>, s': Atoms)
    decreases |es|
  {
    if es == [] then s' == s else Enabled(s, es[0]) && Run(Apply(s, es[0]), es[1..], s')
  }

  lemma {:induction false} RunKeeps(s: Atoms, es: seq<Event>, s': Atoms)
    requires Consistent(s) && Run(s, es, s')
    ensures Consistent(s') && s.names <= s'.names && s.answers <= s'.answers
    decreases |es|
  {
    hide Consistent, Apply, Enabled;
    if es != [] {
      StepKeeps(s, es[0]);
      RunKeeps(Apply(s, es[0]), es[1..], s');
    }
  }

  /** After every interleaving names and indices are one-to-one: two answers are the same term
      exactly when they were asked for the same name, whichever threads asked and whenever;
      and looking a term up in any later table gives the name it was interned for. */
  lemma GrowingBijection(es: seq<Event>, s: Atoms, later: seq<Event>, s': Atoms, j: nat, k: nat)
    requires Run(Atoms([], map[], []), es, s) && Run(s, later, s')
    requires j < |s'.answers| && k < |s'.answers|
    ensures Distinct(s'.names) && s.names <= s'.names
    ensures s'.answers[j].1 == s'.answers[k].1 <==> s'.answers[j].0 == s'.answers[k].0
    ensures j < |s.answers| ==>
              var t := s.answers[j].1;
              && t.Atom? && t.index < |s.names| && s.names[t.index] == s.answers[j].0
              && s'.names[t.index] == s.answers[j].0
  {
    hide Run;
    RunKeeps(Atoms([], map[], []), es, s);
    RunKeeps(s, later, s');
  }

  /** Looking up the term an intern gave, at any later time, returns the name that was interned
      exactly when the name has no zero byte. */
  lemma LookupReturnsName(es: seq<Event>, s: Atoms, later: seq<Event>, s': Atoms, j: nat)
    requires Run(Atoms([], map[], []), es, s) && Run(s, later, s')
    requires j < |s.answers| && |s'.names| <= UINT32_SPAN
    ensures NameOf(s'.names, s.answers[j].1) == Some(CString(s.answers[j].0))
    ensures NameOf(s'.names, s.answers[j].1) == Some(s.answers[j].0) <==> 0 !in s.answers[j].0
  {
    hide Run;
    RunKeeps(Atoms([], map[], []), es, s);
    RunKeeps(s, later, s');
    CStringWhole(s.answers[j].0);
  }

  /** The write path without its second probe. */
  function BlindWrite(s: Atoms, th: Thread): Atoms
    requires th in s.missed
  {
    s.(names := s.names + [s.missed[th]], missed := s.missed - {th})
  }

  /** The second probe is needed: two threads that both miss would enter one name twice. */
  lemma SecondProbeNeeded(name: Name)
    ensures var s := Apply(Apply(Atoms([], map[], []), Probe(0, name)), Probe(1, name));
            s.missed == map[0 := name, 1 := name] && !Distinct(BlindWrite(BlindWrite(s, 0), 1).names)
  {
    var s := Apply(Apply(Atoms([], map[], []), Probe(0, name)), Probe(1, name));
    var t := BlindWrite(BlindWrite(s, 0), 1);
    assert t.names[0] == t.names[1];
  }
}
