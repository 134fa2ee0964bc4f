/** A term table as chains of key-value pairs, and as what it means: for every key the
    sequence of its values, newest first. */
module EtsModel {
  import opened BeamCore

  datatype TableKind = SetTable | OrderedSetTable | BagTable | DuplicateBagTable

  type Chain = seq<(Term, Term)>

  predicate Overwrites(kind: TableKind) {
    kind.SetTable? || kind.OrderedSetTable?
  }

  // ---------- one chain ----------

  /** Position of the first pair with this key. */
  function FirstKey(c: Chain, key: Term): (i: nat)
    ensures i <= |c| && (i < |c| ==> c[i].0 == key) && forall j :: 0 <= j < i ==> c[j].0 != key
  {
    if c == [] || c[0].0 == key then 0 else 1 + FirstKey(c[1..], key)
  }

  function InsertIn(kind: TableKind, c: Chain, key: Term, value: Term): Chain {
    var i := FirstKey(c, key);
    if Overwrites(kind) && i < |c| then c[i := (key, value)]
    else if kind.BagTable? && (key, value) in c then c
    else [(key, value)] + c
  }

  function LookupIn(c: Chain, key: Term): Option<Term> {
    var i := FirstKey(c, key);
    if i < |c| then Some(c[i].1) else None
  }

  function DeleteIn(c: Chain, key: Term): Chain {
    var i := FirstKey(c, key);
    if i < |c| then c[..i] + c[i + 1..] else c
  }

  function Bump(value: Term, increment: int): Term {
    MakeSmall(SmallOf(value) + increment)
  }

  /** A counter is a 60-bit integer: the increment is added modulo 2^60. */
  lemma BumpAdds(value: Term, increment: int)
    ensures Bump(value, increment).Small?
    ensures SmallOf(Bump(value, increment)) == Wrap60(SmallOf(value) + increment)
  {
    SmallRoundTrip(SmallOf(value) + increment);
  }

  function UpdateIn(c: Chain, key: Term, increment: int): Chain {
    var i := FirstKey(c, key);
    if i < |c| then c[i := (key, Bump(c[i].1, increment))] else c
  }

  // ---------- what a chain means ----------

  /** The values of a key, newest first. */
  function ValuesOf(c: Chain, key: Term): seq<Term> {
    if c == [] then []
    else (if c[0].0 == key then [c[0].1] else []) + ValuesOf(c[1..], key)
  }

  function InsertValue(kind: TableKind, vs: seq<Term>, v: Term): seq<Term> {
    if Overwrites(kind) && vs != [] then [v] + vs[1..]
    else if kind.BagTable? && v in vs then vs
    else [v] + vs
  }

  lemma {:induction false} ValuesOfConcat(c: Chain, d: Chain, key: Term)
    ensures ValuesOf(c + d, key) == ValuesOf(c, key) + ValuesOf(d, key)
    decreases |c|
  {
    if c == [] {
      assert c + d == d;
    } else {
      assert (c + d)[0] == c[0] && (c + d)[1..] == c[1..] + d;
      ValuesOfConcat(c[1..], d, key);
      var first := if c[0].0 == key then [c[0].1] else [];
      assert first + (ValuesOf(c[1..], key) + ValuesOf(d, key)) == (first + ValuesOf(c[1..], key)) + ValuesOf(d, key);
    }
  }

  lemma {:induction false} NoValues(c: Chain, key: Term)
    requires forall j :: 0 <= j < |c| ==> c[j].0 != key
    ensures ValuesOf(c, key) == []
    decreases |c|
  {
    if c != [] {
      NoValues(c[1..], key);
    }
  }

  /** A chain seen around position `i`. */
  lemma ValuesAround(c: Chain, i: nat, mid: Chain, key: Term)
    requires i < |c|
    ensures ValuesOf(c[..i] + mid + c[i + 1..], key) == ValuesOf(c[..i], key) + ValuesOf(mid, key) + ValuesOf(c[i + 1..], key)
    ensures ValuesOf(c, key) == ValuesOf(c[..i], key) + ValuesOf([c[i]], key) + ValuesOf(c[i + 1..], key)
    ensures i == FirstKey(c, key) ==> ValuesOf(c[..i], key) == []
  {
    hide ValuesOf;
    ValuesOfConcat(c[..i] + mid, c[i + 1..], key);
    ValuesOfConcat(c[..i], mid, key);
    assert c == c[..i] + [c[i]] + c[i + 1..];
    ValuesOfConcat(c[..i] + [c[i]], c[i + 1..], key);
    ValuesOfConcat(c[..i], [c[i]], key);
    if i == FirstKey(c, key) {
      NoValues(c[..i], key);
    }
  }

  lemma {:induction false} SplitAtFirst(c: Chain, key: Term)
    ensures var i := FirstKey(c, key);
            if i == |c| then ValuesOf(c, key) == []
            else ValuesOf(c, key) == [c[i].1] + ValuesOf(c[i + 1..], key)
    decreases |c|
  {
    if c != [] && c[0].0 != key {
      var i := FirstKey(c[1..], key);
      SplitAtFirst(c[1..], key);
      assert FirstKey(c, key) == i + 1 && ValuesOf(c, key) == ValuesOf(c[1..], key);
      hide FirstKey, ValuesOf;
      if i < |c[1..]| {
        assert c[1..][i] == c[i + 1] && c[1..][i + 1..] == c[i + 2..];
      }
    }
  }

  lemma ValuesOfOne(p: (Term, Term), key: Term)
    ensures ValuesOf([p], key) == if p.0 == key then [p.1] else []
  {
    assert [p][1..] == [];
  }

  lemma ValuesOfPrepended(c: Chain, p: (Term, Term), key: Term)
    ensures ValuesOf([p] + c, key) == (if p.0 == key then [p.1] else []) + ValuesOf(c, key)
  {
    assert ([p] + c)[1..] == c;
  }

  lemma ValuesOfReplaced(c: Chain, i: nat, v: Term, key: Term)
    requires i < |c|
    ensures c[i].0 != key ==> ValuesOf(c[i := (c[i].0, v)], key) == ValuesOf(c, key)
    ensures i == FirstKey(c, key) ==> ValuesOf(c[i := (key, v)], key) == [v] + ValuesOf(c[i + 1..], key)
  {
    hide ValuesOf;
    var p := (c[i].0, v);
    ValuesAround(c, i, [p], key);
    ValuesOfOne(p, key);
    ValuesOfOne(c[i], key);
    assert c[i := p] == c[..i] + [p] + c[i + 1..];
  }

  lemma ValuesOfRemoved(c: Chain, i: nat, key: Term)
    requires i < |c|
    ensures c[i].0 != key ==> ValuesOf(c[..i] + c[i + 1..], key) == ValuesOf(c, key)
    ensures i == FirstKey(c, key) ==> ValuesOf(c[..i] + c[i + 1..], key) == ValuesOf(c[i + 1..], key)
  {
    ValuesAround(c, i, [], key);
    ValuesOfOne(c[i], key);
    assert ValuesOf([], key) == [];
    hide ValuesOf;
    assert c[..i] + [] + c[i + 1..] == c[..i] + c[i + 1..];
  }

  lemma {:induction false} ValuesOfMember(c: Chain, key: Term, v: Term)
    ensures (key, v) in c <==> v in ValuesOf(c, key)
    decreases |c|
  {
    if c != [] {
      ValuesOfMember(c[1..], key, v);
      assert c == [c[0]] + c[1..];
    }
  }

  /** Each operation acts on the front of its own key's values and on no other key. */
  lemma InsertActsOnFront(kind: TableKind, c: Chain, key: Term, value: Term, other: Term)
    ensures ValuesOf(InsertIn(kind, c, key, value), key) == InsertValue(kind, ValuesOf(c, key), value)
    ensures other != key ==> ValuesOf(InsertIn(kind, c, key, value), other) == ValuesOf(c, other)
    ensures var vs, us := ValuesOf(c, key), ValuesOf(InsertIn(kind, c, key, value), key);
            match kind
            case SetTable => us == [value] + if vs == [] then [] else vs[1..]
            case OrderedSetTable => us == [value] + if vs == [] then [] else vs[1..]
            case BagTable => us == if value in vs then vs else [value] + vs
            case DuplicateBagTable => us == [value] + vs
  {
    hide FirstKey, ValuesOf;
    var i := FirstKey(c, key);
    SplitAtFirst(c, key);
    ValuesOfMember(c, key, value);
    if i < |c| {
      ValuesOfReplaced(c, i, value, key);
      ValuesOfReplaced(c, i, value, other);
    }
    ValuesOfPrepended(c, (key, value), key);
    ValuesOfPrepended(c, (key, value), other);
  }

  lemma LookupReadsFront(c: Chain, key: Term)
    ensures LookupIn(c, key) == if ValuesOf(c, key) == [] then None else Some(ValuesOf(c, key)[0])
  {
    SplitAtFirst(c, key);
  }

  lemma DeleteActsOnFront(c: Chain, key: Term, other: Term)
    ensures ValuesOf(DeleteIn(c, key), key) == if ValuesOf(c, key) == [] then [] else ValuesOf(c, key)[1..]
    ensures other != key ==> ValuesOf(DeleteIn(c, key), other) == ValuesOf(c, other)
  {
    hide FirstKey, ValuesOf;
    var i := FirstKey(c, key);
    SplitAtFirst(c, key);
    if i < |c| {
      ValuesOfRemoved(c, i, key);
      ValuesOfRemoved(c, i, other);
    }
  }

  lemma UpdateActsOnFront(c: Chain, key: Term, increment: int, other: Term)
    ensures ValuesOf(UpdateIn(c, key, increment), key)
         == (if ValuesOf(c, key) == [] then []
             else [Bump(ValuesOf(c, key)[0], increment)] + ValuesOf(c, key)[1..])
    ensures other != key ==> ValuesOf(UpdateIn(c, key, increment), other) == ValuesOf(c, other)
    ensures var vs, us := ValuesOf(c, key), ValuesOf(UpdateIn(c, key, increment), key);
            && |us| == |vs|
            && (vs != [] ==> us[0].Small? && SmallOf(us[0]) == Wrap60(SmallOf(vs[0]) + increment) && us[1..] == vs[1..])
  {
    if ValuesOf(c, key) != [] {
      BumpAdds(ValuesOf(c, key)[0], increment);
    }
    var i := FirstKey(c, key);
    SplitAtFirst(c, key);
    if i < |c| {
      ValuesOfReplaced(c, i, Bump(c[i].1, increment), key);
      ValuesOfReplaced(c, i, Bump(c[i].1, increment), other);
    }
  }

  // ---------- the table ----------

  /** Chains by bucket, any hash function. */
  datatype Table = Table(kind: TableKind, hash: Term -> nat, chains: seq<Chain>)

  predicate WfTable(t: Table) {
    |t.chains| > 0
  }

  function BucketOf(t: Table, key: Term): (b: nat)
    requires WfTable(t)
    ensures b < |t.chains|
  {
    t.hash(key) % |t.chains|
  }

  function Values(t: Table, key: Term): seq<Term>
    requires WfTable(t)
  {
    ValuesOf(t.chains[BucketOf(t, key)], key)
  }

  function WithChain(t: Table, b: nat, c: Chain): Table
    requires b < |t.chains|
  {
    t.(chains := t.chains[b := c])
  }

  datatype Op = Insert(key: Term, value: Term) | Delete(key: Term) | UpdateCounter(key: Term, increment: int)

  function ApplyTo(kind: TableKind, c: Chain, op: Op): Chain {
    match op
    case Insert(k, v) => InsertIn(kind, c, k, v)
    case Delete(k) => DeleteIn(c, k)
    case UpdateCounter(k, d) => UpdateIn(c, k, d)
  }

  function Apply(t: Table, op: Op): (t': Table)
    requires WfTable(t)
    ensures WfTable(t')
  {
    var b := BucketOf(t, op.key);
    WithChain(t, b, ApplyTo(t.kind, t.chains[b], op))
  }

  function Run(t: Table, ops: seq<Op>): (t': Table)
    requires WfTable(t)
    ensures WfTable(t')
    decreases |ops|
  {
    if ops == [] then t else Run(Apply(t, ops[0]), ops[1..])
  }

  /** What an operation does to the values of one key: nothing unless it names the key. */
  function ValueOp(kind: TableKind, key: Term, vs: seq<Term>, op: Op): seq<Term> {
    if op.key != key then vs
    else match op
         case Insert(_, v) => InsertValue(kind, vs, v)
         case Delete(_) => if vs == [] then [] else vs[1..]
         case UpdateCounter(_, d) => if vs == [] then [] else [Bump(vs[0], d)] + vs[1..]
  }

  function ValueRun(kind: TableKind, key: Term, vs: seq<Term>, ops: seq<Op>): seq<Term>
    decreases |ops|
  {
    if ops == [] then vs else ValueRun(kind, key, ValueOp(kind, key, vs, ops[0]), ops[1..])
  }

  lemma ApplyRefines(t: Table, op: Op, key: Term)
    requires WfTable(t)
    ensures Values(Apply(t, op), key) == ValueOp(t.kind, key, Values(t, key), op)
  {
    hide ValuesOf, InsertIn, DeleteIn, UpdateIn;
    var c := t.chains[BucketOf(t, op.key)];
    match op {
      case Insert(k, v) => InsertActsOnFront(t.kind, c, k, v, key);
      case Delete(k) => DeleteActsOnFront(c, k, key);
      case UpdateCounter(k, d) => UpdateActsOnFront(c, k, d, key);
    }
  }

  /** For every history and every hash function the table is a map from keys to value
      sequences: what a key holds depends only on the operations that name it. */
  lemma {:induction false} TableRefinesMap(t: Table, ops: seq<Op>, key: Term)
    requires WfTable(t)
    ensures Values(Run(t, ops), key) == ValueRun(t.kind, key, Values(t, key), ops)
    decreases |ops|
  {
    hide Apply, ValueOp, Values;
    if ops != [] {
      ApplyRefines(t, ops[0], key);
      KindKept(t, ops[0]);
      TableRefinesMap(Apply(t, ops[0]), ops[1..], key);
    }
  }

  lemma KindKept(t: Table, op: Op)
    requires WfTable(t)
    ensures Apply(t, op).kind == t.kind
  {
  }

  // ---------- what the kinds promise ----------

  predicate NoDuplicates(vs: seq<Term>) {
    forall i, j :: 0 <= i < j < |vs| ==> vs[i] != vs[j]
  }

  /** SET: at most one value per key, after every history. */
  lemma {:induction false} SetHoldsOne(kind: TableKind, key: Term, vs: seq<Term>, ops: seq<Op>)
    requires (kind.SetTable? || kind.OrderedSetTable?) && |vs| <= 1
    ensures |ValueRun(kind, key, vs, ops)| <= 1
    decreases |ops|
  {
    hide Bump;
    if ops != [] {
      SetHoldsOne(kind, key, ValueOp(kind, key, vs, ops[0]), ops[1..]);
    }
  }

  /** BAG: no value twice under a key, after every history of insertions and deletions. */
  lemma {:induction false} BagHasNoDuplicates(key: Term, vs: seq<Term>, ops: seq<Op>)
    requires NoDuplicates(vs) && forall k :: 0 <= k < |ops| ==> !ops[k].UpdateCounter?
    ensures NoDuplicates(ValueRun(BagTable, key, vs, ops))
    decreases |ops|
  {
    if ops != [] {
      BagHasNoDuplicates(key, ValueOp(BagTable, key, vs, ops[0]), ops[1..]);
    }
  }

  /** A counter update keeps a bag free of duplicates exactly when the new front value is not
      already among the key's other values; `update_counter` does not look. */
  lemma BagCounterExactly(key: Term, vs: seq<Term>, d: int)
    requires NoDuplicates(vs) && vs != []
    ensures NoDuplicates(ValueOp(BagTable, key, vs, UpdateCounter(key, d))) <==> MakeSmall(SmallOf(vs[0]) + d) !in vs[1..]
  {
    var v := Bump(vs[0], d);
    assert v == MakeSmall(SmallOf(vs[0]) + d);
    hide Bump, MakeSmall, SmallOf;
    var ws := [v] + vs[1..];
    assert ValueOp(BagTable, key, vs, UpdateCounter(key, d)) == ws;
    if v in vs[1..] {
      var i :| 0 <= i < |vs[1..]| && vs[1..][i] == v;
      assert ws[0] == ws[i + 1];
    }
  }

  // ---------- the item count ----------

  function TotalLength(cs: seq<Chain>): nat {
    if cs == [] then 0 else TotalLength(cs[..|cs| - 1]) + |cs[|cs| - 1]|
  }

  lemma {:induction false} TotalLengthUpdate(cs: seq<Chain>, b: nat, c: Chain)
    requires b < |cs|
    ensures TotalLength(cs[b := c]) + |cs[b]| == TotalLength(cs) + |c|
    decreases |cs|
  {
    var n := |cs| - 1;
    if b == n {
      assert cs[b := c][..n] == cs[..n];
    } else {
      TotalLengthUpdate(cs[..n], b, c);
      assert cs[b := c][..n] == cs[..n][b := c];
    }
  }
}
