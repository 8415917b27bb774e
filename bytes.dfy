// Bytes and little-endian integer fields, as the on-disk structures of the
// revert snapshot store them (le_* members).
module Bytes {

  newtype byte = x: int | 0 <= x < 256

  function Pow256(n: nat): (r: nat)
    ensures r >= 1
  {
    if n == 0 then 1 else 256 * Pow256(n - 1)
  }

  /** The n-byte little-endian image of v modulo 256^n. */
  function LE(v: nat, n: nat): (s: seq<byte>)
    ensures |s| == n
  {
    if n == 0 then [] else [(v % 256) as byte] + LE(v / 256, n - 1)
  }

  /** The value of a little-endian byte string. */
  function UnLE(s: seq<byte>): (v: nat)
    ensures v < Pow256(|s|)
  {
    if |s| == 0 then 0 else s[0] as nat + 256 * UnLE(s[1..])
  }

  /** Encoding a value that fits in n bytes and decoding it gives the value back. */
  lemma {:induction false} UnLELE(v: nat, n: nat)
    requires v < Pow256(n)
    ensures UnLE(LE(v, n)) == v
  {
    if n > 0 {
      UnLELE(v / 256, n - 1);
      assert LE(v, n)[1..] == LE(v / 256, n - 1);
    }
  }

  /** Decoding then encoding gives the same bytes back. */
  lemma {:induction false} LEUnLE(s: seq<byte>)
    ensures LE(UnLE(s), |s|) == s
  {
    if |s| > 0 {
      LEUnLE(s[1..]);
      assert (s[0] as nat + 256 * UnLE(s[1..])) / 256 == UnLE(s[1..]);
    }
  }

  /** Pow256 at the widths the on-disk structures use. */
  lemma Pow256Widths()
    ensures Pow256(2) == 0x1_0000 && Pow256(4) == 0x1_0000_0000
    ensures Pow256(8) == 0x1_0000_0000_0000_0000
  {
    assert Pow256(1) == 256;
    assert Pow256(2) == 0x1_0000;
    assert Pow256(3) == 0x100_0000;
    assert Pow256(4) == 0x1_0000_0000;
    assert Pow256(5) == 0x100_0000_0000;
    assert Pow256(6) == 0x1_0000_0000_0000;
    assert Pow256(7) == 0x100_0000_0000_0000;
  }

  /** Truncation to a ULONG, as the 32-bit segment ordinals are stored and compared. */
  function U32(x: nat): (r: nat)
    ensures r < 0x1_0000_0000
  {
    x % 0x1_0000_0000
  }

  function Zeros(n: nat): (s: seq<byte>)
    ensures |s| == n && forall i :: 0 <= i < n ==> s[i] == 0
  {
    seq(n, _ => 0)
  }

  /** A 16-bit field at offset i of s (bytes at or past the end read as zero). */
  function U16At(s: seq<byte>, i: nat): nat
  {
    ByteAt(s, i) as nat + 256 * ByteAt(s, i + 1) as nat
  }

  function ByteAt(s: seq<byte>, i: nat): byte
  {
    if i < |s| then s[i] else 0
  }

  /** A 32-bit field at offset i of s. */
  function U32At(s: seq<byte>, i: nat): nat
  {
    U16At(s, i) + 0x1_0000 * U16At(s, i + 2)
  }

  /** A 64-bit field at offset i of s. */
  function U64At(s: seq<byte>, i: nat): nat
  {
    U32At(s, i) + 0x1_0000_0000 * U32At(s, i + 4)
  }

  /** The fixed-width fields read the same value as the little-endian decoding of their bytes. */
  lemma U32AtUnLE(s: seq<byte>, i: nat)
    requires i + 4 <= |s|
    ensures U32At(s, i) == UnLE(s[i..i + 4])
  {
    var t := s[i..i + 4];
    assert t[1..][1..] == t[2..] && t[2..][1..] == t[3..] && t[3..][1..] == t[4..];
    assert UnLE(t[4..]) == 0;
    assert UnLE(t[3..]) == t[3] as nat;
    assert UnLE(t[2..]) == t[2] as nat + 256 * t[3] as nat;
    assert UnLE(t[1..]) == t[1] as nat + 256 * t[2] as nat + 0x1_0000 * t[3] as nat;
  }

  lemma U64AtUnLE(s: seq<byte>, i: nat)
    requires i + 8 <= |s|
    ensures U64At(s, i) == UnLE(s[i..i + 8])
  {
    U32AtUnLE(s, i);
    U32AtUnLE(s, i + 4);
    UnLEAppend(s[i..i + 4], s[i + 4..i + 8]);
    assert s[i..i + 4] + s[i + 4..i + 8] == s[i..i + 8];
  }

  /** Decoding a concatenation: the second part counts 256^|a| times. */
  lemma {:induction false} UnLEAppend(a: seq<byte>, b: seq<byte>)
    requires |a| == 4
    ensures UnLE(a + b) == UnLE(a) + 0x1_0000_0000 * UnLE(b)
  {
    var t := a + b;
    assert t[1..][1..] == t[2..] && t[2..][1..] == t[3..] && t[3..][1..] == t[4..] && t[4..] == b;
    assert a[1..][1..] == a[2..] && a[2..][1..] == a[3..] && a[3..][1..] == a[4..];
    assert UnLE(a[4..]) == 0;
    assert UnLE(t[3..]) == t[3] as nat + 256 * UnLE(b);
    assert UnLE(t[2..]) == t[2] as nat + 256 * t[3] as nat + 0x1_0000 * UnLE(b);
    assert UnLE(t[1..]) == t[1] as nat + 256 * t[2] as nat + 0x1_0000 * t[3] as nat + 0x100_0000 * UnLE(b);
    assert UnLE(a[3..]) == a[3] as nat;
    assert UnLE(a[2..]) == a[2] as nat + 256 * a[3] as nat;
    assert UnLE(a[1..]) == a[1] as nat + 256 * a[2] as nat + 0x1_0000 * a[3] as nat;
    assert UnLE(a) == a[0] as nat + 256 * a[1] as nat + 0x1_0000 * a[2] as nat + 0x100_0000 * a[3] as nat;
    assert t[0] == a[0] && t[1] == a[1] && t[2] == a[2] && t[3] == a[3];
  }

  lemma U16AtLE(v: nat, s: seq<byte>, i: nat)
    requires v < 65536 && i + 2 <= |s| && s[i..i + 2] == LE(v, 2)
    ensures U16At(s, i) == v
  {
    UnLELE(v, 2);
    assert s[i..i + 2][1..] == s[i + 1..i + 2];
  }
}
