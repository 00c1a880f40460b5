/** Fixed-width fields of a page: reading, writing, and what a write leaves alone. */
module PageFields {
  import opened Types
  import opened Bytes

  type PageBytes = d: seq<byte> | |d| == PAGE_SIZE witness seq(PAGE_SIZE, _ => 0)

  function Field(d: PageBytes, p: nat, n: nat): (s: seq<byte>)
    requires p + n <= PAGE_SIZE
    ensures |s| == n
  {
    d[p..p + n]
  }

  function Put(d: PageBytes, p: nat, s: seq<byte>): PageBytes
    requires p + |s| <= PAGE_SIZE
  {
    d[..p] + s + d[p + |s|..]
  }

  predicate Disjoint(p: nat, n: nat, q: nat, m: nat) {
    p + n <= q || q + m <= p
  }

  lemma {:induction false} PutField(d: PageBytes, p: nat, s: seq<byte>, q: nat, n: nat)
    requires p + |s| <= PAGE_SIZE && q + n <= PAGE_SIZE
    ensures Disjoint(p, |s|, q, n) ==> Field(Put(d, p, s), q, n) == Field(d, q, n)
    ensures p == q && n == |s| ==> Field(Put(d, p, s), q, n) == s
  {
    var e := Put(d, p, s);
    if Disjoint(p, |s|, q, n) {
      assert forall i :: q <= i < q + n ==> e[i] == d[i];
      assert e[q..q + n] == d[q..q + n];
    }
  }

  function U16(d: PageBytes, p: nat): (n: nat)
    requires p + 2 <= PAGE_SIZE
    ensures n < TWO_16
  {
    var s := Field(d, p, 2);
    FromBytesBound(s);
    Pow256Values();
    FromBytes(s)
  }

  function I32(d: PageBytes, p: nat): (n: int)
    requires p + 4 <= PAGE_SIZE
    ensures -TWO_31 <= n < TWO_31
  {
    var s := Field(d, p, 4);
    FromBytesBound(s);
    Pow256Values();
    Signed32(FromBytes(s))
  }

  function PutU16(d: PageBytes, p: nat, n: nat): PageBytes
    requires p + 2 <= PAGE_SIZE
  {
    Put(d, p, ToBytes(n, 2))
  }

  function PutI32(d: PageBytes, p: nat, n: int): PageBytes
    requires p + 4 <= PAGE_SIZE && -TWO_31 <= n < TWO_31
  {
    Put(d, p, ToBytes(Unsigned32(n), 4))
  }

  lemma {:induction false} PutU16Reads(d: PageBytes, p: nat, n: nat)
    requires p + 2 <= PAGE_SIZE && n < TWO_16
    ensures U16(PutU16(d, p, n), p) == n
  {
    PutField(d, p, ToBytes(n, 2), p, 2);
    Pow256Values();
    BytesRoundTrip(n, 2);
  }

  lemma {:induction false} PutI32Reads(d: PageBytes, p: nat, n: int)
    requires p + 4 <= PAGE_SIZE && -TWO_31 <= n < TWO_31
    ensures I32(PutI32(d, p, n), p) == n
  {
    PutField(d, p, ToBytes(Unsigned32(n), 4), p, 4);
    Pow256Values();
    BytesRoundTrip(Unsigned32(n), 4);
  }

  function I64(d: PageBytes, p: nat): (n: int)
    requires p + 8 <= PAGE_SIZE
    ensures -TWO_63 <= n < TWO_63
  {
    var s := Field(d, p, 8);
    FromBytesBound(s);
    Pow256Values();
    Signed64(FromBytes(s))
  }

  function PutI64(d: PageBytes, p: nat, n: int): PageBytes
    requires p + 8 <= PAGE_SIZE && -TWO_63 <= n < TWO_63
  {
    Put(d, p, ToBytes(Unsigned64(n), 8))
  }

  lemma {:induction false} PutI64Reads(d: PageBytes, p: nat, n: int)
    requires p + 8 <= PAGE_SIZE && -TWO_63 <= n < TWO_63
    ensures I64(PutI64(d, p, n), p) == n
  {
    PutField(d, p, ToBytes(Unsigned64(n), 8), p, 8);
    Pow256Values();
    BytesRoundTrip(Unsigned64(n), 8);
  }

  /** Copies bytes into a page buffer. */
  method CopyInto(a: array<byte>, p: nat, s: seq<byte>)
    requires a.Length == PAGE_SIZE && p + |s| <= PAGE_SIZE
    modifies a
    ensures a[..] == Put(old(a[..]), p, s)
  {
    var i := 0;
    while i < |s|
      invariant i <= |s|
      invariant forall k :: 0 <= k < PAGE_SIZE ==> a[k] == if p <= k < p + i then s[k - p] else old(a[k])
    {
      a[p + i] := s[i];
      i := i + 1;
    }
  }
}
