/** Bytes, fixed-width little-endian integers and byte-buffer updates. */
module Bytes {

  type Byte = x: int | 0 <= x < 256
  type U16 = x: int | 0 <= x < 0x1_0000
  type U32 = x: int | 0 <= x < 0x1_0000_0000
  type U64 = x: int | 0 <= x < 0x1_0000_0000_0000_0000

  function Pow256(n: nat): nat {
    if n == 0 then 1 else 256 * Pow256(n - 1)
  }

  /** The n low bytes of v, least significant first. */
  function LE(v: nat, n: nat): (s: seq<Byte>)
    ensures |s| == n
  {
    if n == 0 then [] else [v % 256] + LE(v / 256, n - 1)
  }

  function FromLE(s: seq<Byte>): nat {
    if s == [] then 0 else s[0] + 256 * FromLE(s[1..])
  }

  lemma {:induction false} FromToLE(v: nat, n: nat)
    requires v < Pow256(n)
    ensures FromLE(LE(v, n)) == v
  {
    if n == 0 {
    } else {
      FromToLE(v / 256, n - 1);
      assert LE(v, n)[1..] == LE(v / 256, n - 1);
    }
  }

  lemma {:induction false} ToFromLE(s: seq<Byte>)
    ensures FromLE(s) < Pow256(|s|)
    ensures LE(FromLE(s), |s|) == s
  {
    if s == [] {
    } else {
      ToFromLE(s[1..]);
      assert FromLE(s) % 256 == s[0] && FromLE(s) / 256 == FromLE(s[1..]);
      assert s == [s[0]] + s[1..];
    }
  }

  lemma Widths()
    ensures Pow256(2) == 0x1_0000
    ensures Pow256(4) == 0x1_0000_0000
    ensures Pow256(8) == 0x1_0000_0000_0000_0000
  {
    assert Pow256(2) == 0x1_0000;
    assert Pow256(4) == 0x1_0000 * Pow256(2);
    assert Pow256(6) == 0x1_0000 * Pow256(4);
    assert Pow256(8) == 0x1_0000 * Pow256(6);
  }

  lemma {:induction false} FromLEConcat(a: seq<Byte>, b: seq<Byte>)
    ensures FromLE(a + b) == FromLE(a) + Pow256(|a|) * FromLE(b)
  {
    if a == [] {
      assert a + b == b;
    } else {
      FromLEConcat(a[1..], b);
      assert (a + b)[0] == a[0] && (a + b)[1..] == a[1..] + b;
      MulAssoc(Pow256(|a| - 1), FromLE(b));
    }
  }

  lemma MulAssoc(p: int, x: int)
    ensures 256 * (p * x) == (256 * p) * x
  {
  }

  /** A 64-bit value stored as its low and then its high 32-bit half. */
  lemma TwoHalves(v: U64)
    ensures LE(v % 0x1_0000_0000, 4) + LE(v / 0x1_0000_0000, 4) == LE(v, 8)
  {
    Widths();
    var lo, hi := LE(v % 0x1_0000_0000, 4), LE(v / 0x1_0000_0000, 4);
    FromToLE(v % 0x1_0000_0000, 4);
    FromToLE(v / 0x1_0000_0000, 4);
    FromLEConcat(lo, hi);
    ToFromLE(lo + hi);
  }

  function Zeros(n: nat): (s: seq<Byte>)
    ensures |s| == n
  {
    seq(n, _ => 0)
  }

  /** s with the bytes from off on replaced by data. */
  function Splice(s: seq<Byte>, off: nat, data: seq<Byte>): (r: seq<Byte>)
    requires off + |data| <= |s|
    ensures |r| == |s|
  {
    s[..off] + data + s[off + |data|..]
  }

  /** CopyMem into a buffer: exactly data's bytes change. */
  method CopyInto(buf: array<Byte>, off: nat, data: seq<Byte>)
    requires off + |data| <= buf.Length
    modifies buf
    ensures buf[..] == Splice(old(buf[..]), off, data)
  {
    for k := 0 to |data|
      invariant forall j :: 0 <= j < buf.Length ==>
        buf[j] == if off <= j < off + k then data[j - off] else old(buf[j])
    {
      buf[off + k] := data[k];
    }
  }
}
