/**
 Records appended behind the remains of a torn length field: they are never read back, and what
 is read instead can be records that nobody wrote.
 */
module WalTorn {
  import opened Types
  import opened Bytes
  import opened Wal

  /** The remains of a length field in which the file was cut. */
  predicate Remains(tail: seq<byte>, torn: Record) {
    Writable(torn) && |tail| < 4 && tail == Frame(torn)[..|tail|]
  }

  /** The first record that is read takes its number and kind from fixed places of the file. */
  lemma {:induction false} FirstRead(file: seq<byte>)
    requires |file| >= 4 && ReadAll(file).Records?
    ensures |file| >= 4 + FIXED && |ReadAll(file).rs| > 0
    ensures var r := ReadAll(file).rs[0]; r.lsn == FromBytes(file[4..12]) && r.kind == file[12]
  {
    var len, rest := FromBytes(file[..4]), file[4..];
    var buf := rest[..len];
    assert ParseBody(buf).Parsed?;
    assert buf[0..8] == file[4..12] && buf[8] == file[12];
    assert ReadAll(file) == Prepend([ParseBody(buf).r], ReadAll(rest[len..]));
  }

  /** Where the fields of a record stand in its frame. */
  lemma {:induction false} FrameFields(r: Record)
    requires Writable(r)
    ensures |Frame(r)| >= 4 + FIXED && Frame(r)[4..12] == ToBytes(r.lsn, 8) && Frame(r)[12] == r.kind
  {
    var f := Frame(r);
    assert f[4..] == Body(r);
    assert Body(r)[..8] == ToBytes(r.lsn, 8) && Body(r)[8] == r.kind;
    assert f[4..12] == Body(r)[..8];
  }

  /** Read one, two or three bytes too early, a record never shows both its number and its kind. */
  lemma {:induction false} ShiftedDiffers(r: Record, k: nat)
    requires Writable(r) && 0 < k < 4
    ensures |Frame(r)| >= 4 + FIXED
    ensures FromBytes(Frame(r)[4 - k..12 - k]) != r.lsn || Frame(r)[12 - k] != r.kind
  {
    var f := Frame(r);
    FrameFields(r);
    LengthBytes(r);
    var early := f[4 - k..12 - k];
    if FromBytes(early) == r.lsn {
      NumberRoundTrip(early);
      assert early == f[4..12];
      forall i | 4 <= i < 12 ensures f[i] == f[i - k] {
        assert early[i - 4] == f[i - k] && f[4..12][i - 4] == f[i];
      }
      Repeats(f, k);
    }
  }

  /** Bytes that repeat from a zero on stay zero. */
  lemma {:induction false} Repeats(f: seq<byte>, k: nat)
    requires 0 < k < 4 && |f| >= 12 && f[2] == 0 && f[3] == 0
    requires forall i :: 4 <= i < 12 ==> f[i] == f[i - k]
    ensures f[12 - k] == 0
  {
    if k == 1 {
      assert f[4] == f[3] && f[5] == f[4] && f[6] == f[5] && f[7] == f[6];
      assert f[8] == f[7] && f[9] == f[8] && f[10] == f[9] && f[11] == f[10];
    } else if k == 2 {
      assert f[4] == f[2] && f[6] == f[4] && f[8] == f[6] && f[10] == f[8];
    } else {
      assert f[6] == f[3] && f[9] == f[6];
    }
  }

  /** Behind remains the first record that is read is not the one that was appended. */
  lemma {:induction false} FirstDiffers(tail: seq<byte>, r: Record, more: seq<byte>)
    requires 0 < |tail| < 4 && Writable(r)
    ensures ReadAll(tail + Frame(r) + more).Records? ==>
              |ReadAll(tail + Frame(r) + more).rs| > 0 && ReadAll(tail + Frame(r) + more).rs[0] != r
  {
    var file, f, k := tail + Frame(r) + more, Frame(r), |tail|;
    LengthRoundTrip(r);
    if ReadAll(file).Records? {
      FirstRead(file);
      ShiftedDiffers(r, k);
      assert file[4..12] == f[4 - k..12 - k] && file[12] == f[12 - k];
    }
  }

  lemma {:induction false} BehindRemains(tail: seq<byte>, torn: Record, more: seq<Record>)
    requires Remains(tail, torn) && AllWritable(more) && |more| > 0
    ensures ReadAll(tail + File(more)) == Records(more) <==> tail == []
  {
    if tail == [] {
      assert tail + File(more) == File(more);
      ReadBack(more);
    } else {
      assert tail + File(more) == tail + Frame(more[0]) + File(more[1..]);
      FirstDiffers(tail, more[0], File(more[1..]));
    }
  }

  /**
   A log whose last record was cut within its length field is taken as complete when it is
   reopened, and new records go behind the remains. Whatever is appended, the log reads back as
   the old and the new records if and only if there are no remains.
   */
  lemma {:induction false} AppendsReadBackIff(rs: seq<Record>, tail: seq<byte>, torn: Record, more: seq<Record>)
    requires AllWritable(rs) && Remains(tail, torn) && AllWritable(more) && |more| > 0
    ensures ReadAll(File(rs) + tail) == Records(rs)
    ensures ReadAll(File(rs) + tail + File(more)) == Records(rs + more) <==> tail == []
  {
    ReadBeforeRemains(rs, tail);
    ReadAppended(rs, tail, File(more));
    BehindRemains(tail, torn, more);
    PrependInjective(rs, ReadAll(tail + File(more)), more);
  }

  lemma {:induction false} ReadAppended(rs: seq<Record>, tail: seq<byte>, more: seq<byte>)
    requires AllWritable(rs)
    ensures ReadAll(File(rs) + tail + more) == Prepend(rs, ReadAll(tail + more))
  {
    ReadRecords(rs, tail + more);
    assert File(rs) + tail + more == File(rs) + (tail + more);
  }

  lemma {:induction false} PrependInjective(rs: seq<Record>, got: ReadResult, more: seq<Record>)
    ensures Prepend(rs, got) == Records(rs + more) <==> got == Records(more)
  {
    if got.Records? && rs + got.rs == rs + more {
      assert got.rs == (rs + got.rs)[|rs|..] && more == (rs + more)[|rs|..];
    }
  }

  /* ---------- Records that nobody wrote ---------- */

  /** A record other than an update whose length field says where it ends. */
  lemma {:induction false} ReadPlain(file: seq<byte>, len: nat) returns (r: Record)
    requires |file| >= 4 + len && len >= FIXED && FromBytes(file[..4]) == len && file[12] != UPDATE
    ensures ReadAll(file) == Prepend([r], ReadAll(file[4 + len..]))
    ensures r == Record(FromBytes(file[4..12]), file[12], FromBytes(file[13..21]), Signed32(FromBytes(file[21..25])), [], [])
  {
    var rest := file[4..];
    var buf := rest[..len];
    r := ParseBody(buf).r;
    assert buf[0..8] == file[4..12] && buf[8] == file[12] && buf[9..17] == file[13..21] && buf[17..21] == file[21..25];
    assert rest[len..] == file[4 + len..];
  }

  const FIRST := Record(1, COMMIT, 7, INVALID_PAGE, [], [])

  /** The frame of that record: a length of 21, number 1 in eight bytes, then its kind. */
  lemma {:induction false} FirstFrame()
    ensures Writable(FIRST) && |Frame(FIRST)| == 25
    ensures var f := Frame(FIRST);
            f[0] == 0x15 && f[1] == 0 && f[2] == 0 && f[3] == 0 && f[4] == 1 && forall i :: 5 <= i < 12 ==> f[i] == 0
  {
    var f := Frame(FIRST);
    LengthRoundTrip(FIRST);
    LengthBytes(FIRST);
    FrameFields(FIRST);
    assert ToBytes(1, 8) == [1] + ToBytes(0, 7);
    ZeroBytes(7);
    forall i | 4 <= i < 12 ensures f[i] == ToBytes(1, 8)[i - 4] {
      assert f[4..12][i - 4] == f[i];
    }
  }

  lemma {:induction false} ZeroBytes(w: nat)
    ensures forall i :: 0 <= i < w ==> ToBytes(0, w)[i] == 0
  {
    if w > 0 {
      ZeroBytes(w - 1);
    }
  }

  /** The byte of an update's after-image in its frame. */
  lemma {:induction false} ImageByte(u: Record, i: nat)
    requires Writable(u) && u.kind == UPDATE && i < PAGE_SIZE
    ensures |Frame(u)| == 4 + FIXED + 2 * PAGE_SIZE && Frame(u)[4 + FIXED + PAGE_SIZE + i] == u.after[i]
  {
    LengthRoundTrip(u);
    assert Frame(u)[4 + FIXED + PAGE_SIZE + i] == Body(u)[FIXED + PAGE_SIZE + i];
  }

  /** An after-image that holds the length of what follows it in the file. */
  predicate Misleading(u: Record) {
    && Writable(u) && u.kind == UPDATE
    && u.after[1254] == 0x16 && u.after[1255] == 0x0B && u.after[1256] == 0 && u.after[1257] == 0
    && u.after[1266] == 0
  }

  /** One byte of a torn length, a commit record and such an update, as they stand in the file. */
  lemma {:induction false} MisleadingBytes(u: Record, file: seq<byte>)
    requires Misleading(u) && file == [0x15] + Frame(FIRST) + Frame(u)
    ensures |file| == 8243 && file[0] == 0x15 && file[1] == 0x15 && file[2] == 0 && file[3] == 0 && file[4] == 0
    ensures file[5] == 1 && (forall i :: 6 <= i < 13 ==> file[i] == 0)
    ensures file[5401] == 0x16 && file[5402] == 0x0B && file[5403] == 0 && file[5404] == 0 && file[5413] == 0
  {
    FirstFrame();
    LengthRoundTrip(u);
    assert forall i :: 1 <= i < 26 ==> file[i] == Frame(FIRST)[i - 1];
    assert forall i :: 26 <= i < |file| ==> file[i] == Frame(u)[i - 26];
    ImageByte(u, 1254);
    ImageByte(u, 1255);
    ImageByte(u, 1256);
    ImageByte(u, 1257);
    ImageByte(u, 1266);
  }

  /** The number read from eight bytes of which only the second is not zero. */
  lemma {:induction false} SecondByte(s: seq<byte>)
    requires |s| == 8 && s[1] == 1 && forall i :: 0 <= i < 8 && i != 1 ==> s[i] == 0
    ensures FromBytes(s) == 256
  {
    AllZero(s[2..]);
    assert s[1..][1..] == s[2..];
    assert FromBytes(s[1..]) == 1 + 256 * FromBytes(s[2..]);
  }

  lemma {:induction false} AllZero(s: seq<byte>)
    requires forall i :: 0 <= i < |s| ==> s[i] == 0
    ensures FromBytes(s) == 0
  {
    if |s| > 0 {
      AllZero(s[1..]);
    }
  }

  lemma {:induction false} InventedFirst(file: seq<byte>) returns (x: Record)
    requires |file| == 8243 && file[0] == 0x15 && file[1] == 0x15 && file[2] == 0 && file[3] == 0 && file[4] == 0
    requires file[5] == 1 && forall i :: 6 <= i < 13 ==> file[i] == 0
    ensures ReadAll(file) == Prepend([x], ReadAll(file[5401..])) && x.lsn == 256 && x.kind == 0
  {
    FourBytes(file[..4]);
    x := ReadPlain(file, 5397);
    SecondByte(file[4..12]);
  }

  lemma {:induction false} InventedSecond(rest: seq<byte>) returns (y: Record)
    requires |rest| == 2842 && rest[0] == 0x16 && rest[1] == 0x0B && rest[2] == 0 && rest[3] == 0 && rest[12] == 0
    ensures ReadAll(rest) == Records([y]) && y.kind == 0
  {
    FourBytes(rest[..4]);
    y := ReadPlain(rest, 2838);
    assert rest[2842..] == [] && [y] + [] == [y];
  }

  /**
   Behind one byte of a torn length, a commit record and an update with a misleading page read
   without any error as two records that nobody wrote; the first has number 256, and neither
   has a kind there is.
   */
  lemma {:induction false} InventedRecords(u: Record) returns (x: Record, y: Record)
    requires Misleading(u)
    ensures Writable(FIRST) && ReadAll([0x15] + Frame(FIRST) + Frame(u)) == Records([x, y])
    ensures x.lsn == 256 && !Writable(x) && !Writable(y)
  {
    FirstFrame();
    var file: seq<byte> := [0x15] + Frame(FIRST) + Frame(u);
    MisleadingBytes(u, file);
    x := InventedFirst(file);
    y := InventedSecond(file[5401..]);
    assert [x] + [y] == [x, y];
  }
}
