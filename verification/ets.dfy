/** The term table over linked chains, updated in place. */
module EtsList {
  import opened BeamCore
  import opened Sequences
  import opened EtsModel

  class Entry {
    const key: Term
    var value: Term
    var next: Entry?

    constructor (key: Term, value: Term, next: Entry?)
      ensures this.key == key && this.value == value && this.next == next
    {
      this.key := key;
      this.value := value;
      this.next := next;
    }
  }

  ghost function At(ns: seq<Entry>, i: int): Entry? {
    if 0 <= i < |ns| then ns[i] else null
  }

  /** The chain without entry `i`. */
  lemma Unlinked(ns: seq<Entry>, i: nat) returns (rest: seq<Entry>)
    requires Distinct(ns) && i < |ns|
    ensures |rest| == |ns| - 1 && Distinct(rest)
    ensures forall k {:trigger At(rest, k)} :: At(rest, k) == At(ns, if k < i then k else k + 1)
    ensures forall k {:trigger rest[k]} :: 0 <= k < |rest| ==> rest[k] == ns[if k < i then k else k + 1]
  {
    rest := ns[..i] + ns[i + 1..];
  }

  lemma FirstKeyIs(c: Chain, key: Term, i: nat)
    requires i <= |c| && (i < |c| ==> c[i].0 == key) && forall j :: 0 <= j < i ==> c[j].0 != key
    ensures FirstKey(c, key) == i
  {
    hide FirstKey;
    var k := FirstKey(c, key);
  }

  class Bucket {
    var head: Entry?
    ghost var nodes: seq<Entry>
    ghost var pairs: Chain
    ghost var owned: set<Entry>

    ghost predicate Valid()
      reads this, owned
    {
      && |pairs| == |nodes|
      && (forall i :: 0 <= i < |nodes| ==> nodes[i] in owned)
      && Distinct(nodes)
      && head == At(nodes, 0)
      && (forall i {:trigger nodes[i].next} :: 0 <= i < |nodes| ==> nodes[i].next == At(nodes, i + 1))
      && (forall i :: 0 <= i < |nodes| ==> pairs[i] == (nodes[i].key, nodes[i].value))
    }

    constructor ()
      ensures Valid() && pairs == [] && owned == {}
    {
      head, nodes, pairs, owned := null, [], [], {};
    }

    /** The walk to the first entry with this key. */
    method FindKey(key: Term) returns (entry: Entry?, ghost i: nat)
      requires Valid()
      ensures entry == At(nodes, FirstKey(pairs, key)) && i == FirstKey(pairs, key)
    {
      hide Distinct, FirstKey;
      entry, i := head, 0;
      while entry != null
        invariant i <= |nodes| && entry == At(nodes, i)
        invariant forall j :: 0 <= j < i ==> pairs[j].0 != key
        decreases |nodes| - i
      {
        if entry.key == key {
          break;
        }
        entry := entry.next;
        i := i + 1;
      }
      FirstKeyIs(pairs, key, i);
    }

    method HasPair(key: Term, value: Term) returns (found: bool)
      requires Valid()
      ensures found <==> (key, value) in pairs
    {
      hide Distinct;
      var entry := head;
      ghost var i := 0;
      while entry != null
        invariant i <= |nodes| && entry == At(nodes, i)
        invariant forall j :: 0 <= j < i ==> pairs[j] != (key, value)
        decreases |nodes| - i
      {
        if entry.key == key && entry.value == value {
          assert pairs[i] == (key, value);
          return true;
        }
        entry := entry.next;
        i := i + 1;
      }
      found := false;
    }

    method Prepend(key: Term, value: Term)
      requires Valid()
      modifies this
      ensures Valid() && pairs == [(key, value)] + old(pairs) && fresh(owned - old(owned))
    {
      var entry := new Entry(key, value, head);
      head := entry;
      nodes := [entry] + nodes;
      pairs := [(key, value)] + pairs;
      owned := owned + {entry};
    }

    method SetValue(entry: Entry, ghost i: nat, value: Term)
      requires Valid() && i < |nodes| && entry == nodes[i]
      modifies this`pairs, owned
      ensures Valid() && pairs == old(pairs)[i := (old(pairs)[i].0, value)]
    {
      DistinctFrom(nodes, i);
      hide Distinct;
      entry.value := value;
      pairs := pairs[i := (pairs[i].0, value)];
    }

    /** The pointer-to-pointer walk of the deletion; `prev` is the entry whose `next` is the
        pointer in hand, null for the bucket's own. */
    method Unlink(key: Term) returns (found: bool)
      requires Valid()
      modifies this`head, this`nodes, this`pairs, owned
      ensures Valid() && pairs == DeleteIn(old(pairs), key)
      ensures found <==> FirstKey(old(pairs), key) < |old(pairs)|
    {
      hide Distinct, FirstKey;
      var prev: Entry? := null;
      var curr := head;
      ghost var i := 0;
      while curr != null
        invariant i <= |nodes| && curr == At(nodes, i) && prev == At(nodes, i - 1)
        invariant forall j :: 0 <= j < i ==> pairs[j].0 != key
        decreases |nodes| - i
      {
        if curr.key == key {
          FirstKeyIs(pairs, key, i);
          Splice(prev, curr, i);
          return true;
        }
        prev := curr;
        curr := curr.next;
        i := i + 1;
      }
      FirstKeyIs(pairs, key, i);
      found := false;
    }

    method Splice(prev: Entry?, curr: Entry, ghost i: nat)
      requires Valid() && i < |nodes| && curr == nodes[i] && prev == At(nodes, i - 1)
      modifies this`head, this`nodes, this`pairs, owned
      ensures Valid() && pairs == old(pairs)[..i] + old(pairs)[i + 1..]
    {
      DistinctFrom(nodes, i);
      if i > 0 {
        DistinctFrom(nodes, i - 1);
      }
      hide Distinct;
      ghost var ps := pairs;
      if prev == null {
        head := curr.next;
      } else {
        prev.next := curr.next;
      }
      nodes := Unlinked(nodes, i);
      pairs := ps[..i] + ps[i + 1..];
      assert forall k :: 0 <= k < |pairs| ==> pairs[k] == ps[if k < i then k else k + 1];
    }
  }

  const DEFAULT_BUCKETS: nat := 64

  class EtsTable {
    const kind: TableKind
    const hash: Term -> nat
    const buckets: seq<Bucket>
    var itemCount: nat
    ghost var chains: seq<Chain>
    ghost var Repr: set<object>

    ghost predicate Valid()
      reads this, Repr
    {
      && this in Repr
      && |buckets| == |chains| > 0
      && (forall b :: 0 <= b < |buckets| ==> buckets[b] in Repr)
      && (forall b :: 0 <= b < |buckets| ==> buckets[b].owned <= Repr)
      && (forall b :: 0 <= b < |buckets| ==> buckets[b].Valid())
      && (forall b :: 0 <= b < |buckets| ==> buckets[b].pairs == chains[b])
      && (forall b, c :: 0 <= b < c < |buckets| ==> buckets[b] != buckets[c] && buckets[b].owned !! buckets[c].owned)
      && itemCount == TotalLength(chains)
    }

    constructor (kind: TableKind, hash: Term -> nat)
      ensures Valid() && fresh(Repr)
      ensures Abs() == Table(kind, hash, seq(64, _ => []))
    {
      hide Bucket.Valid;
      this.kind := kind;
      this.hash := hash;
      var bs := EmptyBuckets(DEFAULT_BUCKETS);
      buckets := bs;
      itemCount := 0;
      chains := seq(DEFAULT_BUCKETS, _ => []);
      Repr := {this} + (set b: Bucket | b in bs);
      EmptyTotal(DEFAULT_BUCKETS);
    }

    static method EmptyBuckets(n: nat) returns (bs: seq<Bucket>)
      ensures |bs| == n
      ensures forall b :: 0 <= b < n ==> fresh(bs[b]) && bs[b].Valid() && bs[b].pairs == [] && bs[b].owned == {}
      ensures forall b, c :: 0 <= b < c < n ==> bs[b] != bs[c]
    {
      hide Bucket.Valid;
      bs := [];
      for k := 0 to n
        invariant |bs| == k
        invariant forall b :: 0 <= b < k ==> fresh(bs[b]) && bs[b].Valid() && bs[b].pairs == [] && bs[b].owned == {}
        invariant forall b, c :: 0 <= b < c < k ==> bs[b] != bs[c]
      {
        var bucket := new Bucket();
        bs := bs + [bucket];
      }
    }

    static lemma EmptyTotal(n: nat)
      ensures TotalLength(seq(n, _ => [])) == 0
    {
      if n > 0 {
        EmptyTotal(n - 1);
        assert seq<Chain>(n, _ => [])[..n - 1] == seq<Chain>(n - 1, _ => []);
      }
    }

    /** The table this structure stands for. */
    ghost function Abs(): (t: Table)
      reads this
    {
      Table(kind, hash, chains)
    }

    /** An operation on bucket `b` leaves the others as they were. */
    twostate lemma OthersUnchanged(b: nat)
      requires old(Valid()) && b < |buckets| == |chains| && chains == old(chains)[b := buckets[b].pairs]
      requires buckets[b].Valid() && fresh(buckets[b].owned - old(buckets[b].owned))
      requires forall c :: 0 <= c < |buckets| && c != b ==>
                 unchanged(buckets[c]) && forall n :: n in old(buckets[c].owned) ==> unchanged(n)
      ensures forall c :: 0 <= c < |buckets| ==> buckets[c].Valid() && buckets[c].pairs == chains[c]
      ensures forall c :: 0 <= c < |buckets| && c != b ==> buckets[c].owned == old(buckets[c].owned)
      ensures forall c, d :: 0 <= c < d < |buckets| ==> buckets[c].owned !! buckets[d].owned
    {
    }

    /** Pushes a new entry on bucket `b`. */
    method PrependTo(b: nat, key: Term, value: Term)
      requires Valid() && b < |buckets|
      modifies Repr
      ensures Valid() && fresh(Repr - old(Repr))
      ensures chains == old(chains)[b := [(key, value)] + old(chains)[b]]
    {
      hide TotalLength, Bucket.Valid;
      TotalLengthUpdate(chains, b, [(key, value)] + chains[b]);
      buckets[b].Prepend(key, value);
      itemCount := itemCount + 1;
      chains := chains[b := buckets[b].pairs];
      Repr := Repr + buckets[b].owned;
      OthersUnchanged(b);
    }

    /** Overwrites the value of entry `i` of bucket `b`. */
    method SetIn(b: nat, entry: Entry, ghost i: nat, value: Term)
      requires Valid() && b < |buckets| && i < |buckets[b].nodes| && entry == buckets[b].nodes[i] && i < |chains[b]|
      modifies Repr
      ensures Valid() && Repr == old(Repr)
      ensures chains == old(chains)[b := old(chains)[b][i := (old(chains)[b][i].0, value)]]
    {
      hide TotalLength, Bucket.Valid;
      TotalLengthUpdate(chains, b, chains[b][i := (chains[b][i].0, value)]);
      buckets[b].SetValue(entry, i, value);
      chains := chains[b := buckets[b].pairs];
      OthersUnchanged(b);
    }

    method InsertPair(key: Term, value: Term) returns (status: Status)
      requires Valid()
      modifies Repr
      ensures Valid() && fresh(Repr - old(Repr)) && status == Ok
      ensures Abs() == Apply(old(Abs()), Insert(key, value))
    {
      hide TotalLength, FirstKey, Distinct;
      var b := hash(key) % |buckets|;
      status := Ok;
      if kind.SetTable? || kind.OrderedSetTable? {
        var entry, i := buckets[b].FindKey(key);
        if entry != null {
          SetIn(b, entry, i, value);
          return;
        }
      } else if kind.BagTable? {
        var found := buckets[b].HasPair(key, value);
        if found {
          assert chains[b := chains[b]] == chains;
          return;
        }
      }
      PrependTo(b, key, value);
    }

    method LookupKey(key: Term) returns (r: Option<Term>)
      requires Valid()
      ensures r == LookupIn(chains[BucketOf(Abs(), key)], key)
      ensures r == if Values(Abs(), key) == [] then None else Some(Values(Abs(), key)[0])
    {
      hide FirstKey, Distinct, ValuesOf;
      var b := hash(key) % |buckets|;
      LookupReadsFront(chains[b], key);
      var entry, i := buckets[b].FindKey(key);
      r := if entry != null then Some(entry.value) else None;
    }

    method DeleteKey(key: Term) returns (status: Status)
      requires Valid()
      modifies Repr
      ensures Valid() && Repr == old(Repr)
      ensures Abs() == Apply(old(Abs()), Delete(key))
      ensures status == if Values(old(Abs()), key) == [] then NotFound else Ok
    {
      hide TotalLength, FirstKey, Distinct, ValuesOf, Bucket.Valid;
      var b := hash(key) % |buckets|;
      LookupReadsFront(chains[b], key);
      TotalLengthUpdate(chains, b, DeleteIn(chains[b], key));
      var found := buckets[b].Unlink(key);
      itemCount := if found then itemCount - 1 else itemCount;
      chains := chains[b := buckets[b].pairs];
      OthersUnchanged(b);
      status := if found then Ok else NotFound;
    }

    method UpdateCounterOf(key: Term, increment: int) returns (status: Status, newValue: Term)
      requires Valid()
      modifies Repr
      ensures Valid() && Repr == old(Repr)
      ensures Abs() == Apply(old(Abs()), UpdateCounter(key, increment))
      ensures Values(old(Abs()), key) == [] ==> status == NotFound
      ensures Values(old(Abs()), key) != [] ==>
                && status == Ok && newValue.Small?
                && SmallOf(newValue) == Wrap60(SmallOf(Values(old(Abs()), key)[0]) + increment)
                && Values(Abs(), key) == [newValue] + Values(old(Abs()), key)[1..]
    {
      hide TotalLength, FirstKey, Distinct, ValuesOf, Bump, SmallOf, Wrap60;
      var b := hash(key) % |buckets|;
      LookupReadsFront(chains[b], key);
      var entry, i := buckets[b].FindKey(key);
      if entry == null {
        assert chains[b := chains[b]] == chains;
        return NotFound, Raw(0);
      }
      newValue := Bump(entry.value, increment);
      BumpAdds(entry.value, increment);
      UpdateActsOnFront(chains[b], key, increment, key);
      SetIn(b, entry, i, newValue);
      status := Ok;
    }
  }
}
