/** The atom table: hash chains and a growing index map. */
module AtomTableList {
  import opened BeamCore
  import opened ByteStrings
  import opened Sequences

  /** Exclusive or of two numbers, bit by bit. */
  function Xor(a: nat, b: nat): nat {
    if a == 0 && b == 0 then 0 else (a % 2 + b % 2) % 2 + 2 * Xor(a / 2, b / 2)
  }

  /** FNV-1a on 32 bits, one step for each byte. */
  function HashFrom(h: nat, name: Name): nat
    decreases |name|
  {
    if name == [] then h else HashFrom(Xor(h, name[0]) * 16777619 % UINT32_SPAN, name[1..])
  }

  function Hash(name: Name): nat {
    HashFrom(2166136261, name)
  }

  /** Bit `k` of a number. */
  function Bit(n: nat, k: nat): nat
    decreases k
  {
    if k == 0 then n % 2 else Bit(n / 2, k - 1)
  }

  lemma {:induction false} XorBits(a: nat, b: nat, k: nat)
    ensures Bit(Xor(a, b), k) == if Bit(a, k) == Bit(b, k) then 0 else 1
    decreases k
  {
    if k == 0 {
      XorHalves(a, b);
    } else {
      XorHalves(a, b);
      XorBits(a / 2, b / 2, k - 1);
    }
  }

  lemma XorHalves(a: nat, b: nat)
    ensures Xor(a, b) % 2 == (if a % 2 == b % 2 then 0 else 1) && Xor(a, b) / 2 == Xor(a / 2, b / 2)
  {
  }

  lemma {:induction false} HashFromAppend(h: nat, name: Name, b: Byte)
    ensures HashFrom(h, name + [b]) == Xor(HashFrom(h, name), b) * 16777619 % UINT32_SPAN
    decreases |name|
  {
    hide Xor;
    if name == [] {
      assert [b][1..] == [];
    } else {
      assert (name + [b])[1..] == name[1..] + [b];
      HashFromAppend(Xor(h, name[0]) * 16777619 % UINT32_SPAN, name[1..], b);
    }
  }

  /** FNV-1a: the offset basis for no bytes, and each further byte is exclusive-ored into the
      low bits before the multiplication by the prime. */
  lemma HashIsFnv(name: Name, b: Byte)
    ensures Hash([]) == 0x811C_9DC5
    ensures Hash(name + [b]) == Xor(Hash(name), b) * 0x0100_0193 % 0x1_0000_0000
  {
    HashFromAppend(2166136261, name, b);
  }

  method ComputeHash(name: Name) returns (h: nat)
    ensures h == Hash(name)
  {
    hide Xor;
    h := 2166136261;
    for i := 0 to |name|
      invariant HashFrom(h, name[i..]) == Hash(name)
    {
      h := Xor(h, name[i]) * 16777619 % UINT32_SPAN;
      assert name[i..][1..] == name[i + 1..];
    }
  }

  /** What interning makes of the list of names. */
  function Interned(names: seq<Name>, name: Name): seq<Name> {
    if name in names then names else names + [name]
  }

  /** What a reader of the table finds for a term: the 32-bit index cut out of the word, and a
      C string behind it. */
  function NameOf(names: seq<Name>, t: Term): Option<Name> {
    if !t.Atom? || t.index % UINT32_SPAN >= |names| then None else Some(CString(names[t.index % UINT32_SPAN]))
  }

  /** Entries never change once they are linked. */
  class AtomEntry {
    const name: Name
    const hash: nat
    const index: nat
    const next: AtomEntry?

    constructor (name: Name, hash: nat, index: nat, next: AtomEntry?)
      ensures this.name == name && this.hash == hash && this.index == index && this.next == next
    {
      this.name := name;
      this.hash := hash;
      this.index := index;
      this.next := next;
    }
  }

  ghost function At(ns: seq<AtomEntry>, i: int): AtomEntry? {
    if 0 <= i < |ns| then ns[i] else null
  }

  function BucketOf(h: nat, n: nat): (b: nat)
    requires n > 0
    ensures b < n
  {
    h % n
  }

  /** The entry at position `i` carries name `i`. */
  ghost predicate EntryFits(entries: seq<AtomEntry>, names: seq<Name>, i: nat)
    requires i < |entries| == |names|
  {
    entries[i].name == names[i] && entries[i].index == i && entries[i].hash == Hash(names[i])
  }

  /** `chain` is what the links from `head` visit, all of it entries of the table. */
  ghost predicate ChainFits(head: AtomEntry?, chain: seq<AtomEntry>, entries: seq<AtomEntry>) {
    && head == At(chain, 0)
    && (forall k {:trigger chain[k].next} :: 0 <= k < |chain| ==> chain[k].next == At(chain, k + 1))
    && (forall e :: e in chain ==> e in entries)
  }

  /** Every name's entry hangs in the bucket of its hash. */
  ghost predicate Filed(entries: seq<AtomEntry>, names: seq<Name>, chains: seq<seq<AtomEntry>>)
    requires |entries| == |names| && |chains| > 0
  {
    forall i :: 0 <= i < |names| ==> entries[i] in chains[BucketOf(Hash(names[i]), |chains|)]
  }

  lemma ChainPrepended(head: AtomEntry?, chain: seq<AtomEntry>, entries: seq<AtomEntry>, entry: AtomEntry)
    requires ChainFits(head, chain, entries) && entry.next == head
    ensures ChainFits(entry, [entry] + chain, entries + [entry])
  {
    var chain' := [entry] + chain;
    forall k | 0 <= k < |chain'| ensures chain'[k].next == At(chain', k + 1) {
      if k > 0 {
        assert chain'[k] == chain[k - 1] && chain[k - 1].next == At(chain, k);
      }
    }
  }

  lemma ChainWidened(head: AtomEntry?, chain: seq<AtomEntry>, entries: seq<AtomEntry>, entry: AtomEntry)
    requires ChainFits(head, chain, entries)
    ensures ChainFits(head, chain, entries + [entry])
  {
  }

  lemma FiledInserted(entries: seq<AtomEntry>, names: seq<Name>, chains: seq<seq<AtomEntry>>, entry: AtomEntry, name: Name)
    requires |entries| == |names| && |chains| > 0 && Filed(entries, names, chains)
    ensures var b := BucketOf(Hash(name), |chains|);
            Filed(entries + [entry], names + [name], chains[b := [entry] + chains[b]])
  {
    hide Hash;
    var b := BucketOf(Hash(name), |chains|);
    var entries', names', chains' := entries + [entry], names + [name], chains[b := [entry] + chains[b]];
    forall i | 0 <= i < |names'| ensures entries'[i] in chains'[BucketOf(Hash(names'[i]), |chains|)] {
      if i < |names| {
        assert entries[i] in chains[BucketOf(Hash(names[i]), |chains|)];
      }
    }
  }

  class AtomTable {
    const buckets: array<AtomEntry?>
    var indexMap: array<AtomEntry?>
    var count: nat
    ghost var names: seq<Name>                // by index
    ghost var entries: seq<AtomEntry>         // by index
    ghost var chains: seq<seq<AtomEntry>>     // by bucket

    ghost predicate Valid()
      reads this, buckets, indexMap
    {
      && buckets != indexMap && 0 < buckets.Length && 0 < indexMap.Length
      && count == |names| == |entries| <= indexMap.Length && count <= UINT32_SPAN
      && Distinct(names)
      && (forall i :: 0 <= i < count ==> EntryFits(entries, names, i))
      && (forall i :: 0 <= i < count ==> indexMap[i] == entries[i])
      && |chains| == buckets.Length
      && (forall b :: 0 <= b < buckets.Length ==> ChainFits(buckets[b], chains[b], entries))
      && Filed(entries, names, chains)
    }

    constructor (initialCapacity: nat)
      ensures Valid() && names == []
      ensures buckets.Length == indexMap.Length == if initialCapacity > 0 then initialCapacity else 256
    {
      var capacity := if initialCapacity > 0 then initialCapacity else 256;
      buckets := new AtomEntry?[capacity](_ => null);
      indexMap := new AtomEntry?[capacity](_ => null);
      count := 0;
      names, entries, chains := [], [], seq(capacity, _ => []);
    }

    /** Walks the chain of the name's bucket. */
    method FindEntry(name: Name) returns (entry: AtomEntry?)
      requires Valid()
      ensures entry == null <==> name !in names
      ensures entry != null ==> entry.index < |names| && names[entry.index] == name
    {
      hide Hash;
      var h := ComputeHash(name);
      var b := BucketOf(h, buckets.Length);
      assert ChainFits(buckets[b], chains[b], entries);
      entry := buckets[b];
      ghost var k := 0;
      while entry != null
        invariant k <= |chains[b]| && entry == At(chains[b], k)
        invariant forall j :: 0 <= j < k ==> chains[b][j].name != name
        decreases |chains[b]| - k
      {
        assert chains[b][k] in entries;
        ghost var i :| 0 <= i < |entries| && entries[i] == chains[b][k];
        assert EntryFits(entries, names, i);
        if entry.hash == h && entry.name == name {
          return;
        }
        entry := entry.next;
        k := k + 1;
      }
      assert name !in names by {
        forall i | 0 <= i < |names| ensures names[i] != name {
          assert EntryFits(entries, names, i);
        }
      }
    }

    /** Appends a name.  The index is a 32-bit number, so there must be one left. */
    method Insert(name: Name) returns (t: Term)
      requires Valid() && name !in names && count < UINT32_SPAN
      modifies this`indexMap, this`count, this`names, this`entries, this`chains, buckets, indexMap
      ensures Valid() && names == old(names) + [name]
      ensures t == Atom(old(count))
      ensures indexMap == old(indexMap) || fresh(indexMap)
    {
      hide Hash, ChainFits, Filed;
      if count >= indexMap.Length {
        GrowIndexMap();
      }
      var h := ComputeHash(name);
      var b := BucketOf(h, buckets.Length);
      var entry := new AtomEntry(name, h, count, buckets[b]);
      ChainPrepended(buckets[b], chains[b], entries, entry);
      FiledInserted(entries, names, chains, entry, name);
      forall c | 0 <= c < buckets.Length ensures ChainFits(buckets[c], chains[c], entries + [entry]) {
        ChainWidened(buckets[c], chains[c], entries, entry);
      }
      buckets[b] := entry;
      indexMap[count] := entry;
      t := Atom(entry.index);
      count := count + 1;
      forall i | 0 <= i < |names| ensures EntryFits(entries + [entry], names + [name], i) {
        assert EntryFits(entries, names, i);
      }
      names := names + [name];
      entries := entries + [entry];
      chains := chains[b := [entry] + chains[b]];
    }

    /** Doubles the index map; no entry moves. */
    method GrowIndexMap()
      requires Valid()
      modifies this`indexMap
      ensures Valid() && fresh(indexMap) && indexMap.Length == 2 * old(indexMap.Length)
    {
      var newMap := new AtomEntry?[indexMap.Length * 2](_ => null);
      forall i | 0 <= i < indexMap.Length {
        newMap[i] := indexMap[i];
      }
      indexMap := newMap;
    }

    /** The locked region of the write path: probe again, then insert. */
    method ProbeAndInsert(name: Name) returns (t: Term)
      requires Valid() && (name in names || count < UINT32_SPAN)
      modifies this`indexMap, this`count, this`names, this`entries, this`chains, buckets, indexMap
      ensures Valid() && names == Interned(old(names), name)
      ensures t.Atom? && t.index < |names| && names[t.index] == name
      ensures indexMap == old(indexMap) || fresh(indexMap)
    {
      var existing := FindEntry(name);
      if existing != null {
        return Atom(existing.index);
      }
      t := Insert(name);
    }

    /** `beam_atom_intern_length` without other threads: read-locked probe, then the write path. */
    method Intern(name: Name) returns (t: Term)
      requires Valid() && (name in names || count < UINT32_SPAN)
      modifies this`indexMap, this`count, this`names, this`entries, this`chains, buckets, indexMap
      ensures Valid() && names == Interned(old(names), name)
      ensures t.Atom? && t.index < |names| && names[t.index] == name
    {
      var existing := FindEntry(name);
      if existing != null {
        return Atom(existing.index);
      }
      t := ProbeAndInsert(name);
    }

    /** `beam_atom_lookup`: the name as a C string. */
    method Lookup(t: Term) returns (r: Option<Name>)
      requires Valid()
      ensures r == NameOf(names, t)
      ensures r.Some? <==> t.Atom? && t.index % UINT32_SPAN < |names|
      ensures r.Some? ==> r.value == CString(names[t.index % UINT32_SPAN])
    {
      if !t.Atom? {
        return None;
      }
      var index := t.index % UINT32_SPAN;
      if index >= count {
        return None;
      }
      assert EntryFits(entries, names, index);
      r := Some(CString(indexMap[index].name));
    }
  }
}
