/**
 A log cut anywhere within its last record, reopened and appended to. When the cut leaves the
 length field whole, numbering starts again at 1, and the new records are not read back.
 */
module WalRestart {
  import opened Types
  import opened Bytes
  import opened Wal
  import opened WalManager
  import opened WalTorn

  /** What a cut leaves of a record: less than all of it. */
  predicate CutOff(tail: seq<byte>, torn: Record) {
    Writable(torn) && |tail| < |Frame(torn)| && tail == Frame(torn)[..|tail|]
  }

  /** A cut within the length field goes unnoticed; any later one makes the log unreadable and numbering start at 1. */
  lemma {:induction false} NumbersRestart(rs: seq<Record>, tail: seq<byte>, torn: Record)
    requires AllWritable(rs) && CutOff(tail, torn)
    ensures if |tail| < 4 then ReadAll(File(rs) + tail) == Records(rs) && NextLsn(File(rs) + tail) == NextLsn(File(rs))
            else ReadAll(File(rs) + tail) == Corrupt && NextLsn(File(rs) + tail) == 1
  {
    ReadRecords(rs, tail);
    ReadCutFrame(torn, tail);
    ReadBack(rs);
    assert rs + [] == rs;
  }

  /* ---------- Records numbered from 1 behind a cut record ---------- */

  /** The bytes of a small number. */
  lemma {:induction false} SmallNumber(n: nat, s: seq<byte>)
    requires n < 256 && |s| == 8 && FromBytes(s) == n
    ensures s[0] == n && forall i :: 1 <= i < 8 ==> s[i] == 0
  {
    NumberRoundTrip(s);
    assert ToBytes(n, 8) == [n] + ToBytes(0, 7);
    ZeroBytes(7);
  }

  /** The first record read behind a cut can only be the first of those appended if the cut record had its number and kind. */
  lemma {:induction false} CutHasNumber(tail: seq<byte>, torn: Record, r: Record, more: seq<byte>)
    requires CutOff(tail, torn) && |tail| >= 4 && Writable(r) && r.lsn == 1
    requires var got := ReadAll(tail + Frame(r) + more); got.Records? && |got.rs| > 0 && got.rs[0] == r
    ensures |tail| >= 13 && torn.lsn == 1 && torn.kind == r.kind
  {
    var file, s := tail + Frame(r) + more, |tail|;
    FirstRead(file);
    SmallNumber(1, file[4..12]);
    assert forall i :: 4 <= i < 12 ==> file[i] == file[4..12][i - 4];
    LengthBytes(r);
    assert file[s] == Frame(r)[0] == 0x15;
    assert s >= 13;
    FrameFields(torn);
    assert file[4..12] == Frame(torn)[4..12] && file[12] == Frame(torn)[12];
    Pow256Values();
    BytesRoundTrip(torn.lsn, 8);
  }

  /** A frame of 25 bytes that repeats `s` bytes earlier cannot be followed by number 2 where the next record would be read. */
  lemma {:induction false} NoSecond(file: seq<byte>, f: seq<byte>, s: nat)
    requires 13 <= s <= 24 && |f| == 25 && |file| >= s + 25
    requires f[0] == 0x15 && f[1] == 0 && f[2] == 0 && f[3] == 0 && forall i :: 5 <= i < 12 ==> f[i] == 0
    requires forall i :: 4 <= i < 25 ==> file[i] == f[i]
    requires forall i :: s <= i < s + 25 ==> file[i] == f[i - s]
    ensures file[29] != 2 || file[30] != 0 || file[32] != 0 || file[34] != 0
  {
    if s == 13 {
      assert file[29] == f[16] == file[16] == f[3];
    } else if s == 14 {
      assert file[29] == f[15] == file[15] == f[1];
    } else if s == 15 {
      assert file[30] == f[15] == file[15] == f[0];
    } else if s == 16 {
      assert file[32] == f[16] == file[16] == f[0];
    } else if s == 17 {
      assert file[34] == f[17] == file[17] == f[0];
    } else {
      assert file[29] == f[29 - s];
    }
  }

  lemma {:induction false} Pieces(file: seq<byte>)
    requires |file| >= 25
    ensures file[4..25] == file[4..12] + [file[12]] + file[13..21] + file[21..25]
  {
  }

  /** The fields of a record that was read are the bytes they were read from. */
  lemma {:induction false} FieldBytes(file: seq<byte>, r: Record)
    requires Writable(r) && |file| >= 25
    requires r.lsn == FromBytes(file[4..12]) && r.txn == FromBytes(file[13..21]) && r.page == Signed32(FromBytes(file[21..25]))
    ensures file[4..12] == ToBytes(r.lsn, 8) && file[13..21] == ToBytes(r.txn, 8) && file[21..25] == ToBytes(Unsigned32(r.page), 4)
  {
    NumberRoundTrip(file[4..12]);
    NumberRoundTrip(file[13..21]);
    NumberRoundTrip(file[21..25]);
    FromBytesBound(file[21..25]);
    Pow256Values();
  }

  /** A record other than an update that reads back has the bytes of its frame. */
  lemma {:induction false} PlainBytes(file: seq<byte>, r: Record)
    requires Writable(r) && r.kind != UPDATE && ReadsAs(file, r)
    ensures |Frame(r)| == 25 && forall i :: 4 <= i < 25 ==> file[i] == Frame(r)[i]
  {
    LengthRoundTrip(r);
    FieldBytes(file, r);
    Pieces(file);
    assert file[4..25] == Header(r) == Body(r);
    forall i | 4 <= i < 25 ensures file[i] == Frame(r)[i] {
      assert file[i] == file[4..25][i - 4] && Frame(r)[i] == Body(r)[i - 4];
    }
  }

  /** The record stands in the file, `s` bytes behind where a first record is read. */
  predicate StandsAt(file: seq<byte>, r: Record, s: nat) {
    && Writable(r) && |Frame(r)| == 25 && |file| >= s + 25
    && forall i :: s <= i < s + 25 ==> file[i] == Frame(r)[i - s]
  }

  /** The fields at the front of the file read as the record. */
  predicate ReadsAs(file: seq<byte>, r: Record) {
    |file| >= 25 && r == Record(FromBytes(file[4..12]), file[12], FromBytes(file[13..21]), Signed32(FromBytes(file[21..25])), [], [])
  }

  /** If the first record of the file is one that also stands `s` bytes behind its place, the rest does not read as numbers from 2 on. */
  lemma {:induction false} NotBoth(file: seq<byte>, s: nat, r: Record, more: seq<Record>)
    requires 13 <= s <= 24 && StandsAt(file, r, s) && r.lsn == 1 && r.kind != UPDATE && ReadsAs(file, r) && Numbered(more, 2)
    ensures ReadAll(file[25..]) != Records(more)
  {
    FrameStart(r);
    PlainBytes(file, r);
    NoSecond(file, Frame(r), s);
    if ReadAll(file[25..]) == Records(more) {
      SecondNumber(file, file[25..], more);
    }
  }

  /** Behind a cut record that is no update, records numbered from 1 do not read back. */
  lemma {:induction false} BehindPlain(tail: seq<byte>, torn: Record, more: seq<Record>)
    requires CutOff(tail, torn) && |tail| >= 13 && torn.kind != UPDATE
    requires AllWritable(more) && |more| > 0 && Numbered(more, 1) && more[0].kind == torn.kind
    ensures ReadAll(tail + File(more)) != Records(more)
  {
    Standing(tail, more);
    var file := tail + File(more);
    CutLength(file, tail, torn);
    if ReadAll(file) == Records(more) {
      PlainFirst(file, more);
      NotBoth(file, |tail|, more[0], more[1..]);
    }
  }

  lemma {:induction false} Standing(tail: seq<byte>, more: seq<Record>)
    requires AllWritable(more) && |more| > 0 && more[0].kind != UPDATE
    ensures var file := tail + File(more); StandsAt(file, more[0], |tail|) && tail == file[..|tail|]
  {
    LengthRoundTrip(more[0]);
  }

  /** A file that begins with a length of 21 and reads as the given records begins with the first of them. */
  lemma {:induction false} PlainFirst(file: seq<byte>, more: seq<Record>)
    requires |file| >= 25 && FromBytes(file[..4]) == 21 && file[12] != UPDATE && |more| > 0 && ReadAll(file) == Records(more)
    ensures ReadsAs(file, more[0]) && ReadAll(file[25..]) == Records(more[1..])
  {
    var x := ReadPlain(file, 21);
    HeadSplit(x, ReadAll(file[25..]), more);
  }

  lemma {:induction false} HeadSplit(x: Record, got: ReadResult, more: seq<Record>)
    requires Prepend([x], got) == Records(more) && |more| > 0
    ensures x == more[0] && got == Records(more[1..])
  {
    assert [x] + got.rs == more;
  }

  /** Of a record that is no update the length and the kind are whole. */
  lemma {:induction false} CutLength(file: seq<byte>, tail: seq<byte>, torn: Record)
    requires CutOff(tail, torn) && |tail| >= 13 && torn.kind != UPDATE && |file| >= |tail| + 25 && tail == file[..|tail|]
    ensures |tail| <= 24 && FromBytes(file[..4]) == 21 && file[12] != UPDATE
  {
    LengthRoundTrip(torn);
    FrameFields(torn);
    assert file[..4] == Frame(torn)[..4] == ToBytes(21, 4);
    assert file[12] == Frame(torn)[12];
  }

  /** The second record that is read takes its number from here. */
  lemma {:induction false} SecondNumber(file: seq<byte>, rest: seq<byte>, more: seq<Record>)
    requires |file| >= 38 && rest == file[25..] && ReadAll(rest) == Records(more) && Numbered(more, 2)
    ensures file[29] == 2 && forall i :: 30 <= i < 37 ==> file[i] == 0
  {
    FirstRead(rest);
    SmallNumber(2, rest[4..12]);
    assert forall i :: 29 <= i < 37 ==> file[i] == rest[4..12][i - 29];
  }

  /** How a frame of a record with number 1 begins. */
  lemma {:induction false} FrameStart(r: Record)
    requires Writable(r) && r.lsn == 1 && r.kind != UPDATE
    ensures var f := Frame(r);
            |f| == 25 && f[0] == 0x15 && f[1] == 0 && f[2] == 0 && f[3] == 0 && forall i :: 5 <= i < 12 ==> f[i] == 0
  {
    var f := Frame(r);
    LengthRoundTrip(r);
    LengthBytes(r);
    FrameFields(r);
    Pow256Values();
    BytesRoundTrip(1, 8);
    SmallNumber(1, f[4..12]);
    assert forall i :: 4 <= i < 12 ==> f[i] == f[4..12][i - 4];
  }

  /** Records numbered from 1 can only read back behind an update record that was cut in number 1, thirteen bytes in or more. */
  lemma {:induction false} BehindCut(tail: seq<byte>, torn: Record, more: seq<Record>)
    requires CutOff(tail, torn) && |tail| >= 4 && AllWritable(more) && |more| > 0 && Numbered(more, 1)
    requires |tail| < 13 || torn.lsn != 1 || torn.kind != UPDATE
    ensures ReadAll(tail + File(more)) != Records(more)
  {
    if ReadAll(tail + File(more)) == Records(more) {
      assert tail + File(more) == tail + Frame(more[0]) + File(more[1..]);
      CutHasNumber(tail, torn, more[0], File(more[1..]));
      BehindPlain(tail, torn, more);
    }
  }

  /**
   A log is cut anywhere within a record, reopened and appended to; the new records get the
   numbers the manager hands out. It reads back as the old and the new records if and only if
   nothing of the cut record was left, provided that the cut record is not an update with
   number 1 of which at least the number and the kind are left.
   */
  lemma {:induction false} CutReadsBackIff(rs: seq<Record>, tail: seq<byte>, torn: Record, more: seq<Record>)
    requires AllWritable(rs) && CutOff(tail, torn) && AllWritable(more) && |more| > 0
    requires Numbered(more, NextLsn(File(rs) + tail))
    requires |tail| < 13 || torn.lsn != 1 || torn.kind != UPDATE
    ensures ReadAll(File(rs) + tail + File(more)) == Records(rs + more) <==> tail == []
  {
    if |tail| < 4 {
      AppendsReadBackIff(rs, tail, torn, more);
    } else {
      NumbersRestart(rs, tail, torn);
      BehindCut(tail, torn, more);
      ReadAppended(rs, tail, File(more));
      PrependInjective(rs, ReadAll(tail + File(more)), more);
    }
  }

  /** In a log with its numbers from 1 on, that covers every cut behind at least one complete record. */
  lemma {:induction false} LaterCutReadsBackIff(rs: seq<Record>, tail: seq<byte>, torn: Record, more: seq<Record>)
    requires AllWritable(rs) && CutOff(tail, torn) && AllWritable(more) && |more| > 0
    requires Numbered(rs + [torn], 1) && |rs| > 0 && Numbered(more, NextLsn(File(rs) + tail))
    ensures ReadAll(File(rs) + tail + File(more)) == Records(rs + more) <==> tail == []
  {
    assert (rs + [torn])[|rs|] == torn;
    CutReadsBackIff(rs, tail, torn, more);
  }

  /* ---------- The exception ---------- */

  /** An update with number 1 that hides the length of what follows in its transaction number, and its own frame in its page. */
  predicate Hiding(u: Record) {
    && Writable(u) && u.kind == UPDATE && u.lsn == 1 && u.page == 0 && u.txn == 8225 + 2 * TWO_32
    && u.before[0] in {COMMIT, ABORT, CHECKPOINT}
    && u.after[4083..] == [0x15, 0x20, 0, 0, 1, 0, 0, 0, 0, 0, 0, 0, 1]
  }

  /** The record that is read out of its page. */
  function Hidden(u: Record): Record
    requires Hiding(u)
  {
    Record(2, u.before[0], FromBytes(u.before[1..9]), Signed32(FromBytes(u.before[9..13])), [], [])
  }

  /** The frame of that update: its first bytes, and those that its transaction number, page number and pages give. */
  lemma {:induction false} HidingFrame(u: Record)
    requires Hiding(u)
    ensures |Frame(u)| == 8217 && Frame(u)[..13] == u.after[4083..] && Frame(u)[8204..] == u.after[4083..]
  {
    var f := Frame(u);
    LengthRoundTrip(u);
    LengthBytes(u);
    FrameFields(u);
    Pow256Values();
    BytesRoundTrip(1, 8);
    SmallNumber(1, f[4..12]);
    assert forall i :: 4 <= i < 12 ==> f[i] == f[4..12][i - 4];
    forall i | 0 <= i < 13 ensures f[i] == u.after[4083..][i] {
    }
    forall i | 8204 <= i < 8217 ensures f[i] == u.after[i - 4121] {
      ImageByte(u, i - 4121);
    }
    assert f[8204..] == u.after[4083..];
  }

  /** The transaction number as bytes: a length of 8225, and the number of the next record. */
  lemma {:induction false} HidingNumber(u: Record)
    requires Hiding(u)
    ensures ToBytes(u.txn, 8) == [0x21, 0x20, 0, 0, 2, 0, 0, 0] && ToBytes(Unsigned32(u.page), 4) == [0, 0, 0, 0]
  {
    var s: seq<byte> := [0x21, 0x20, 0, 0, 2, 0, 0, 0];
    HidingValue(s);
    NumberRoundTrip(s);
    ZeroBytes(4);
  }

  lemma {:induction false} HidingValue(s: seq<byte>)
    requires |s| == 8 && s[0] == 0x21 && s[1] == 0x20 && s[2] == 0 && s[3] == 0 && s[4] == 2
    requires s[5] == 0 && s[6] == 0 && s[7] == 0
    ensures FromBytes(s) == 8225 + 2 * TWO_32
  {
    AllZero(s[5..]);
    assert s[4..][1..] == s[5..] && s[3..][1..] == s[4..] && s[2..][1..] == s[3..] && s[1..][1..] == s[2..];
    assert FromBytes(s[4..]) == 2 + 256 * FromBytes(s[5..]);
    assert FromBytes(s[3..]) == 256 * FromBytes(s[4..]);
    assert FromBytes(s[2..]) == 256 * FromBytes(s[3..]);
    assert FromBytes(s[1..]) == 0x20 + 256 * FromBytes(s[2..]);
  }

  lemma {:induction false} MiddleOfBody(a: seq<byte>, k: byte, b: seq<byte>, c: seq<byte>, d: seq<byte>, e: seq<byte>)
    requires |a| == 8 && |b| == 8 && |c| == 4 && |d| >= 13
    ensures var s := a + [k] + b + c + (d + e); s[9..21] == b + c && s[21..34] == d[..13]
  {
  }

  lemma {:induction false} HidingFields(u: Record)
    requires Hiding(u)
    ensures |Frame(u)| == 8217
    ensures Frame(u)[13..25] == [0x21, 0x20, 0, 0, 2, 0, 0, 0] + [0, 0, 0, 0] && Frame(u)[25..38] == u.before[..13]
  {
    LengthRoundTrip(u);
    HidingNumber(u);
    var b := Body(u);
    MiddleOfBody(ToBytes(u.lsn, 8), u.kind, ToBytes(u.txn, 8), ToBytes(Unsigned32(u.page), 4), u.before, u.after);
    BehindLength(ToBytes(|b|, 4), b);
  }

  lemma {:induction false} BehindLength(a: seq<byte>, b: seq<byte>)
    requires |a| == 4 && |b| >= 34
    ensures (a + b)[13..25] == b[9..21] && (a + b)[25..38] == b[21..34]
  {
  }

  /** The bytes that stand behind the record read first. */
  predicate HiddenAt(u: Record, rest: seq<byte>)
    requires Writable(u) && u.kind == UPDATE
  {
    && |rest| == 8229 && rest[0] == 0x21 && rest[1] == 0x20 && rest[2] == 0 && rest[3] == 0
    && rest[4] == 2 && (forall i :: 5 <= i < 12 ==> rest[i] == 0)
    && (forall i :: 12 <= i < 25 ==> rest[i] == u.before[i - 12])
  }

  lemma {:induction false} HiddenBytes(u: Record, rest: seq<byte>)
    requires Hiding(u) && |Frame(u)| == 8217 && |rest| == 8229 && rest[..25] == Frame(u)[13..38]
    ensures HiddenAt(u, rest)
  {
    HidingFields(u);
    var f := Frame(u);
    forall i | 0 <= i < 12 ensures rest[i] == f[13..25][i] {
      assert rest[i] == rest[..25][i];
    }
    forall i | 12 <= i < 25 ensures rest[i] == u.before[i - 12] {
      assert rest[i] == rest[..25][i] && f[13 + i] == f[25..38][i - 12];
    }
  }

  /** They read as the hidden record, which takes up all that is left. */
  lemma {:induction false} ReadHidden(u: Record, rest: seq<byte>)
    requires Hiding(u) && HiddenAt(u, rest)
    ensures ReadAll(rest) == Records([Hidden(u)])
  {
    FourBytes(rest[..4]);
    var x := ReadPlain(rest, 8225);
    HiddenFields(u, rest);
    assert rest[8229..] == [] && [x] + [] == [x];
  }

  lemma {:induction false} HiddenFields(u: Record, rest: seq<byte>)
    requires Hiding(u) && HiddenAt(u, rest)
    ensures ReadsAs(rest, Hidden(u))
  {
    var s := rest[4..12];
    assert s[1..] == rest[5..12];
    AllZero(s[1..]);
    assert rest[13..21] == u.before[1..9] && rest[21..25] == u.before[9..13];
  }

  /**
   The exception is real: when such an update is cut thirteen bytes before its end, written again
   after the reopen and followed by the hidden record, the log reads back as just what was
   appended, although the remains are still there.
   */
  lemma {:induction false} RemainsAbsorbed(u: Record)
    requires Hiding(u)
    ensures Writable(Hidden(u)) && |Frame(u)| == 8217 && Numbered([u, Hidden(u)], 1)
    ensures ReadAll(Frame(u)[..8204] + File([u, Hidden(u)])) == Records([u, Hidden(u)])
  {
    HiddenWritable(u);
    HidingFrame(u);
    var c, f := Hidden(u), Frame(u);
    LengthRoundTrip(c);
    FileOfTwo(u, c);
    var rest := f[13..] + Frame(c);
    Overlap(f, Frame(c));
    ReadFrame(u, rest);
    HiddenBytes(u, rest);
    ReadHidden(u, rest);
    assert [u] + [c] == [u, c];
  }

  lemma {:induction false} FileOfTwo(a: Record, b: Record)
    requires Writable(a) && Writable(b)
    ensures File([a, b]) == Frame(a) + Frame(b)
  {
    assert [a, b][1..] == [b] && [b][1..] == [];
    assert File([b]) == Frame(b) + File([]);
  }

  /** A frame that ends as it begins, cut before its end and written again. */
  lemma {:induction false} Overlap(f: seq<byte>, g: seq<byte>)
    requires |f| == 8217 && f[..13] == f[8204..] && |g| == 25
    ensures f[..8204] + (f + g) == f + (f[13..] + g)
    ensures |f[13..] + g| == 8229 && (f[13..] + g)[..25] == f[13..38]
  {
    assert f == f[..13] + f[13..] && f == f[..8204] + f[8204..];
  }

  lemma {:induction false} HiddenWritable(u: Record)
    requires Hiding(u)
    ensures Writable(Hidden(u))
  {
    FromBytesBound(u.before[1..9]);
    FromBytesBound(u.before[9..13]);
    Pow256Values();
  }
}
