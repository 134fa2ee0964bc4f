/** Byte strings: big-endian numbers, C strings, and what stands where in a buffer. */
module ByteStrings {
  import opened BeamCore

  type Name = seq<Byte>

  function ReadU32(bs: seq<Byte>, p: nat): nat
    requires p + 4 <= |bs|
  {
    var a: nat, b: nat, c: nat, d: nat := bs[p], bs[p + 1], bs[p + 2], bs[p + 3];
    ((a * 256 + b) * 256 + c) * 256 + d
  }

  /** The big-endian bytes of a number. */
  function Bytes(v: nat, k: nat): (bs: seq<Byte>)
    ensures |bs| == k
  {
    if k == 0 then [] else Bytes(v / 256, k - 1) + [v % 256]
  }

  /** `ws` stands in `bs` at position `p`. */
  predicate Stands(bs: seq<Byte>, p: nat, ws: seq<Byte>) {
    p + |ws| <= |bs| && bs[p..p + |ws|] == ws
  }

  lemma StandsSplit(bs: seq<Byte>, p: nat, ws: seq<Byte>, us: seq<Byte>)
    requires Stands(bs, p, ws + us)
    ensures Stands(bs, p, ws) && Stands(bs, p + |ws|, us)
  {
    assert bs[p..p + |ws|] == bs[p..p + |ws + us|][..|ws|];
    assert bs[p + |ws|..p + |ws| + |us|] == bs[p..p + |ws + us|][|ws|..];
  }

  lemma ReadU32Of(bs: seq<Byte>, p: nat, n: nat)
    requires n < UINT32_SPAN && Stands(bs, p, Bytes(n, 4))
    ensures p + 4 <= |bs| && ReadU32(bs, p) == n
  {
    assert bs[p..p + 4] == [bs[p], bs[p + 1], bs[p + 2], bs[p + 3]];
    assert Bytes(n, 4) == Bytes(n / 256, 3) + [n % 256];
    assert Bytes(n / 256, 3) == Bytes(n / 256 / 256, 2) + [n / 256 % 256];
    assert Bytes(n / 256 / 256, 2) == Bytes(n / 256 / 256 / 256, 1) + [n / 256 / 256 % 256];
    assert Bytes(n / 256 / 256 / 256, 1) == [n / 256 / 256 / 256 % 256];
  }

  /** The part of a byte string a C reader sees: up to the first zero byte. */
  function CString(name: Name): Name {
    if name == [] || name[0] == 0 then [] else [name[0]] + CString(name[1..])
  }

  lemma {:induction false} CStringWhole(name: Name)
    ensures CString(name) == name <==> 0 !in name
    ensures 0 !in CString(name)
    decreases |name|
  {
    if name != [] {
      CStringWhole(name[1..]);
      assert name == [name[0]] + name[1..];
    }
  }

  /** It is the longest prefix without a zero byte. */
  lemma {:induction false} CStringPrefix(name: Name)
    ensures CString(name) <= name && (|CString(name)| < |name| ==> name[|CString(name)|] == 0)
    decreases |name|
  {
    if name != [] && name[0] != 0 {
      CStringPrefix(name[1..]);
    }
  }

  function Ascii(s: string): (bs: seq<Byte>)
    ensures |bs| == |s| && forall i :: 0 <= i < |s| ==> bs[i] == s[i] as int % 256
  {
    seq(|s|, i requires 0 <= i < |s| => s[i] as int % 256)
  }
}
