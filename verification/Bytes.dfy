/** Bytes and the fixed-width little-endian integers that pages, records and the log are made of. */
module Bytes {

  type byte = x: int | 0 <= x < 256

  const TWO_16 := 0x1_0000
  const TWO_31 := 0x8000_0000
  const TWO_32 := 0x1_0000_0000
  const TWO_63 := 0x8000_0000_0000_0000
  const TWO_64 := 0x1_0000_0000_0000_0000

  function Pow256(w: nat): (p: nat)
    ensures p > 0
  {
    if w == 0 then 1 else 256 * Pow256(w - 1)
  }

  /** The low `w` bytes of a number, lowest first. */
  function ToBytes(n: nat, w: nat): (s: seq<byte>)
    ensures |s| == w
  {
    if w == 0 then [] else [n % 256] + ToBytes(n / 256, w - 1)
  }

  function FromBytes(s: seq<byte>): nat {
    if |s| == 0 then 0 else s[0] + 256 * FromBytes(s[1..])
  }

  lemma {:induction false} BytesRoundTrip(n: nat, w: nat)
    requires n < Pow256(w)
    ensures FromBytes(ToBytes(n, w)) == n
  {
    if w > 0 {
      assert n / 256 < Pow256(w - 1);
      BytesRoundTrip(n / 256, w - 1);
      assert ToBytes(n, w)[1..] == ToBytes(n / 256, w - 1);
    }
  }

  lemma {:induction false} FromBytesBound(s: seq<byte>)
    ensures FromBytes(s) < Pow256(|s|)
  {
    if |s| > 0 {
      FromBytesBound(s[1..]);
    }
  }

  /** Bytes read as a number and written again are the same bytes. */
  lemma {:induction false} NumberRoundTrip(s: seq<byte>)
    ensures ToBytes(FromBytes(s), |s|) == s
  {
    if |s| > 0 {
      NumberRoundTrip(s[1..]);
      var n := FromBytes(s);
      assert n % 256 == s[0] && n / 256 == FromBytes(s[1..]);
    }
  }

  lemma {:induction false} Pow256Values()
    ensures Pow256(1) == 256 && Pow256(2) == TWO_16 && Pow256(4) == TWO_32 && Pow256(8) == TWO_64
  {
    assert Pow256(2) == 256 * Pow256(1);
    assert Pow256(4) == 256 * (256 * Pow256(2));
    assert Pow256(6) == 256 * (256 * Pow256(4));
    assert Pow256(8) == 256 * (256 * Pow256(6));
  }

  /** Two's complement of a signed 32-bit number, and back. */
  function Unsigned32(n: int): (u: nat)
    requires -TWO_31 <= n < TWO_31
    ensures u < TWO_32 && Signed32(u) == n
  {
    if n < 0 then n + TWO_32 else n
  }

  function Signed32(u: nat): int {
    if u < TWO_31 then u else u - TWO_32
  }

  /** Two's complement of a signed 64-bit number, and back. */
  function Unsigned64(n: int): (u: nat)
    requires -TWO_63 <= n < TWO_63
    ensures u < TWO_64 && Signed64(u) == n
  {
    if n < 0 then n + TWO_64 else n
  }

  function Signed64(u: nat): int {
    if u < TWO_63 then u else u - TWO_64
  }
}
