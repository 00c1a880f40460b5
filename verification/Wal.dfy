/** The write-ahead log file: framing of records, reading back, and what a cut file reads as. */
module Wal {
  import opened Types
  import opened Bytes

  const UPDATE: byte := 1
  const COMMIT: byte := 2
  const ABORT: byte := 3
  const CHECKPOINT: byte := 4

  const FIXED: nat := 8 + 1 + 8 + 4

  datatype Record = Record(lsn: nat, kind: byte, txn: nat, page: PageId, before: seq<byte>, after: seq<byte>)

  /** A record the log manager can write. */
  predicate Writable(r: Record) {
    && r.lsn < TWO_64 && r.txn < TWO_64 && -TWO_31 <= r.page < TWO_31
    && r.kind in {UPDATE, COMMIT, ABORT, CHECKPOINT}
    && (if r.kind == UPDATE then |r.before| == |r.after| == PAGE_SIZE else r.before == r.after == [])
  }

  predicate AllWritable(rs: seq<Record>) {
    forall i :: 0 <= i < |rs| ==> Writable(rs[i])
  }

  /* ---------- Writing ---------- */

  function Header(r: Record): (s: seq<byte>)
    requires Writable(r)
    ensures |s| == FIXED
  {
    ToBytes(r.lsn, 8) + [r.kind] + ToBytes(r.txn, 8) + ToBytes(Unsigned32(r.page), 4)
  }

  function Body(r: Record): (s: seq<byte>)
    requires Writable(r)
    ensures |s| == if r.kind == UPDATE then FIXED + 2 * PAGE_SIZE else FIXED
  {
    Header(r) + if r.kind == UPDATE then r.before + r.after else []
  }

  /** A record as it stands in the file: its length, then its body. */
  function Frame(r: Record): seq<byte>
    requires Writable(r)
  {
    ToBytes(|Body(r)|, 4) + Body(r)
  }

  function File(rs: seq<Record>): seq<byte>
    requires AllWritable(rs)
  {
    if |rs| == 0 then [] else Frame(rs[0]) + File(rs[1..])
  }

  /* ---------- Reading ---------- */

  /** The outcome of reading; the last case is a record too short to hold its fixed part. */
  datatype ReadResult = Records(rs: seq<Record>) | Corrupt | OutOfBounds

  datatype Parsed = Parsed(r: Record) | BadImages | Short

  function ParseBody(buf: seq<byte>): Parsed {
    if |buf| < FIXED then Short
    else
      var r := Record(FromBytes(buf[0..8]), buf[8], FromBytes(buf[9..17]), Signed32(FromBytes(buf[17..21])), [], []);
      if r.kind != UPDATE then Parsed(r)
      else if |buf| < FIXED + 2 * PAGE_SIZE then BadImages
      else Parsed(r.(before := buf[FIXED..FIXED + PAGE_SIZE], after := buf[FIXED + PAGE_SIZE..FIXED + 2 * PAGE_SIZE]))
  }

  function Prepend(rs: seq<Record>, r: ReadResult): ReadResult {
    match r
    case Records(more) => Records(rs + more)
    case _ => r
  }

  function ReadAll(file: seq<byte>): ReadResult
    decreases |file|
  {
    if |file| < 4 then Records([])
    else
      var len := FromBytes(file[..4]);
      var rest := file[4..];
      if |rest| < len then Corrupt
      else
        match ParseBody(rest[..len])
        case Short => OutOfBounds
        case BadImages => Corrupt
        case Parsed(r) => Prepend([r], ReadAll(rest[len..]))
  }

  /* ---------- Reading back what was written ---------- */

  lemma {:induction false} HeaderRoundTrip(r: Record, tail: seq<byte>)
    requires Writable(r)
    ensures var buf := Header(r) + tail;
            && FromBytes(buf[0..8]) == r.lsn && buf[8] == r.kind
            && FromBytes(buf[9..17]) == r.txn && Signed32(FromBytes(buf[17..21])) == r.page
  {
    Pow256Values();
    BytesRoundTrip(r.lsn, 8);
    BytesRoundTrip(r.txn, 8);
    BytesRoundTrip(Unsigned32(r.page), 4);
    HeaderSlices(ToBytes(r.lsn, 8), r.kind, ToBytes(r.txn, 8), ToBytes(Unsigned32(r.page), 4), tail);
  }

  lemma {:induction false} HeaderSlices(a: seq<byte>, k: byte, b: seq<byte>, c: seq<byte>, tail: seq<byte>)
    requires |a| == 8 && |b| == 8 && |c| == 4
    ensures var buf := a + [k] + b + c + tail;
            buf[0..8] == a && buf[8] == k && buf[9..17] == b && buf[17..21] == c
  {
  }

  lemma {:induction false} BodyRoundTrip(r: Record)
    requires Writable(r)
    ensures ParseBody(Body(r)) == Parsed(r)
  {
    var images := if r.kind == UPDATE then r.before + r.after else [];
    HeaderRoundTrip(r, images);
    var buf := Body(r);
    if r.kind == UPDATE {
      assert buf[FIXED..FIXED + PAGE_SIZE] == r.before;
      assert buf[FIXED + PAGE_SIZE..FIXED + 2 * PAGE_SIZE] == r.after;
    }
  }

  lemma {:induction false} LengthRoundTrip(r: Record)
    requires Writable(r)
    ensures FromBytes(ToBytes(|Body(r)|, 4)) == |Body(r)| && |Frame(r)| == 4 + |Body(r)|
  {
    Pow256Values();
    BytesRoundTrip(|Body(r)|, 4);
  }

  /** A complete record at the front of the file is read exactly, and reading goes on behind it. */
  lemma {:induction false} ReadFrame(r: Record, more: seq<byte>)
    requires Writable(r)
    ensures ReadAll(Frame(r) + more) == Prepend([r], ReadAll(more))
  {
    var file := Frame(r) + more;
    LengthRoundTrip(r);
    BodyRoundTrip(r);
    assert file[..4] == ToBytes(|Body(r)|, 4);
    assert file[4..] == Body(r) + more;
    assert file[4..][..|Body(r)|] == Body(r);
    assert file[4..][|Body(r)|..] == more;
  }

  /** Whatever follows them, complete records at the front of the file are read exactly. */
  lemma {:induction false} ReadRecords(rs: seq<Record>, more: seq<byte>)
    requires AllWritable(rs)
    ensures ReadAll(File(rs) + more) == Prepend(rs, ReadAll(more))
  {
    if |rs| == 0 {
      assert File(rs) + more == more;
      PrependNone(ReadAll(more));
    } else {
      assert File(rs) + more == Frame(rs[0]) + (File(rs[1..]) + more);
      ReadFrame(rs[0], File(rs[1..]) + more);
      ReadRecords(rs[1..], more);
      PrependTwice([rs[0]], rs[1..], ReadAll(more));
      assert [rs[0]] + rs[1..] == rs;
    }
  }

  lemma {:induction false} PrependNone(r: ReadResult)
    ensures Prepend([], r) == r
  {
    match r {
      case Records(x) => assert [] + x == x;
      case _ =>
    }
  }

  lemma {:induction false} PrependTwice(a: seq<Record>, b: seq<Record>, r: ReadResult)
    ensures Prepend(a, Prepend(b, r)) == Prepend(a + b, r)
  {
    match r {
      case Records(x) => assert a + (b + x) == a + b + x;
      case _ =>
    }
  }

  /** A log reads back as the records that were written. */
  lemma {:induction false} ReadBack(rs: seq<Record>)
    requires AllWritable(rs)
    ensures ReadAll(File(rs)) == Records(rs)
  {
    ReadRecords(rs, []);
    assert File(rs) + [] == File(rs);
  }

  /* ---------- A file cut at any byte ---------- */

  /** How many records are complete in the first `cut` bytes. */
  function Complete(rs: seq<Record>, cut: nat): (n: nat)
    requires AllWritable(rs)
    ensures n <= |rs|
  {
    if |rs| == 0 || cut < |Frame(rs[0])| then 0 else 1 + Complete(rs[1..], cut - |Frame(rs[0])|)
  }

  lemma {:induction false} FileAppend(a: seq<Record>, b: seq<Record>)
    requires AllWritable(a) && AllWritable(b)
    ensures File(a + b) == File(a) + File(b)
  {
    if |a| == 0 {
      assert a + b == b;
    } else {
      assert (a + b)[1..] == a[1..] + b;
      FileAppend(a[1..], b);
    }
  }

  /** What is left of the record that the cut goes through. */
  lemma {:induction false} CutTail(rs: seq<Record>, cut: nat) returns (tail: seq<byte>)
    requires AllWritable(rs) && cut <= |File(rs)|
    ensures var n := Complete(rs, cut);
            && File(rs)[..cut] == File(rs[..n]) + tail
            && |tail| == cut - |File(rs[..n])|
            && (n == |rs| ==> tail == [])
            && (n < |rs| ==> |tail| < |Frame(rs[n])| && tail == Frame(rs[n])[..|tail|])
    decreases |rs|
  {
    if |rs| == 0 {
      tail := [];
    } else if cut < |Frame(rs[0])| {
      tail := Frame(rs[0])[..cut];
      assert rs[..0] == [];
      assert File(rs)[..cut] == tail;
      assert [] + tail == tail;
    } else {
      var m := |Frame(rs[0])|;
      tail := CutTail(rs[1..], cut - m);
      CutBehindFirst(rs, cut, Complete(rs[1..], cut - m), tail);
    }
  }

  lemma {:induction false} CutBehindFirst(rs: seq<Record>, cut: nat, n: nat, tail: seq<byte>)
    requires |rs| > 0 && AllWritable(rs) && |Frame(rs[0])| <= cut <= |File(rs)| && n < |rs|
    requires File(rs[1..])[..cut - |Frame(rs[0])|] == File(rs[1..][..n]) + tail
    ensures File(rs)[..cut] == File(rs[..n + 1]) + tail
    ensures |File(rs[..n + 1])| == |Frame(rs[0])| + |File(rs[1..][..n])|
  {
    assert rs[..n + 1][1..] == rs[1..][..n];
    assert File(rs)[..cut] == Frame(rs[0]) + File(rs[1..])[..cut - |Frame(rs[0])|];
    assert File(rs[..n + 1]) == Frame(rs[0]) + File(rs[1..][..n]);
  }

  /** The beginning of a record reads as nothing while its length is cut, and as corruption otherwise. */
  lemma {:induction false} ReadCutFrame(r: Record, tail: seq<byte>)
    requires Writable(r) && |tail| < |Frame(r)| && tail == Frame(r)[..|tail|]
    ensures ReadAll(tail) == if |tail| < 4 then Records([]) else Corrupt
  {
    if |tail| >= 4 {
      LengthRoundTrip(r);
      assert tail[..4] == Frame(r)[..4] == ToBytes(|Body(r)|, 4);
    }
  }

  /**
   A log cut at any byte reads as exactly its complete records when the cut leaves less than
   a length field of the next one, and as corruption otherwise: no record is ever altered or
   made up.
   */
  lemma {:induction false} ReadCutFile(rs: seq<Record>, cut: nat)
    requires AllWritable(rs) && cut <= |File(rs)|
    ensures var n := Complete(rs, cut);
            |File(rs[..n])| <= cut &&
            ReadAll(File(rs)[..cut]) == if cut - |File(rs[..n])| < 4 then Records(rs[..n]) else Corrupt
  {
    var n := Complete(rs, cut);
    var tail := CutTail(rs, cut);
    ReadRecords(rs[..n], tail);
    if n < |rs| {
      ReadCutFrame(rs[n], tail);
    }
    assert rs[..n] + [] == rs[..n];
  }

  /* ---------- Appending after a reopen ---------- */

  /** Remains of a length field in front of one new record read as corruption. */
  lemma {:induction false} TornLengthHidesAppends(tail: seq<byte>, torn: Record, r: Record)
    requires Writable(torn) && Writable(r)
    requires 0 < |tail| < 4 && tail == Frame(torn)[..|tail|]
    ensures ReadAll(tail + Frame(r)) == Corrupt
  {
    var file := tail + Frame(r);
    LengthRoundTrip(torn);
    LengthRoundTrip(r);
    LengthBytes(torn);
    LengthBytes(r);
    assert tail[0] == 0x15;
    assert forall i :: 0 <= i < |tail| ==> file[i] == Frame(torn)[i];
    assert forall i :: |tail| <= i < |file| ==> file[i] == Frame(r)[i - |tail|];
    FourBytes(file[..4]);
    assert FromBytes(file[..4]) > |file|;
  }

  /** A length field: 21 or 8213, as four bytes. */
  lemma {:induction false} LengthBytes(r: Record)
    requires Writable(r)
    ensures var f := Frame(r);
            |f| >= 4 && f[0] == 0x15 && f[1] == (if r.kind == UPDATE then 0x20 else 0) && f[2] == 0 && f[3] == 0
  {
    var n := |Body(r)|;
    assert ToBytes(n, 4) == [n % 256] + ToBytes(n / 256, 3);
    assert ToBytes(n / 256, 3) == [n / 256 % 256] + ToBytes(n / 256 / 256, 2);
    assert ToBytes(0, 2) == [0] + ToBytes(0, 1);
    assert ToBytes(0, 1) == [0] + ToBytes(0, 0);
  }

  lemma {:induction false} FourBytes(s: seq<byte>)
    requires |s| == 4
    ensures FromBytes(s) == s[0] as int + 256 * s[1] as int + 65536 * s[2] as int + 16777216 * s[3] as int
  {
    assert s[1..][1..] == s[2..] && s[2..][1..] == s[3..] && s[3..][1..] == [];
    assert FromBytes(s[3..]) == s[3] + 256 * FromBytes([]);
    assert FromBytes(s[2..]) == s[2] + 256 * FromBytes(s[3..]);
    assert FromBytes(s[1..]) == s[1] + 256 * FromBytes(s[2..]);
  }

  lemma {:induction false} ReadBeforeRemains(rs: seq<Record>, tail: seq<byte>)
    requires AllWritable(rs) && |tail| < 4
    ensures ReadAll(File(rs) + tail) == Records(rs)
  {
    ReadRecords(rs, tail);
    assert ReadAll(tail) == Records([]) && rs + [] == rs;
  }
}
