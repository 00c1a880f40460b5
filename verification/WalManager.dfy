/** The log manager: an append-only file and the counter of log sequence numbers. */
module WalManager {
  import opened Types
  import opened Bytes
  import opened Wal

  /** Records with consecutive log sequence numbers from `first` on. */
  predicate Numbered(rs: seq<Record>, first: nat) {
    forall i :: 0 <= i < |rs| ==> rs[i].lsn == first + i
  }

  /** The counter a manager starts with on an existing file. */
  function NextLsn(file: seq<byte>): nat {
    match ReadAll(file)
    case Records(rs) => if |rs| == 0 then 1 else rs[|rs| - 1].lsn + 1
    case _ => 1
  }

  lemma {:induction false} FileSnoc(rs: seq<Record>, r: Record)
    requires AllWritable(rs) && Writable(r)
    ensures File(rs + [r]) == File(rs) + Frame(r)
  {
    FileAppend(rs, [r]);
    assert File([r]) == Frame(r) + [];
  }

  method EncodeBody(r: Record) returns (buf: seq<byte>)
    requires Writable(r)
    ensures buf == Body(r)
  {
    buf := ToBytes(r.lsn, 8) + [r.kind] + ToBytes(r.txn, 8) + ToBytes(Unsigned32(r.page), 4);
    if r.kind == UPDATE {
      buf := buf + r.before;
      buf := buf + r.after;
    }
  }

  class WALManager {
    var file: seq<byte>
    var nextLsn: nat

    /** Opens a log file; numbering goes on behind the last record that can be read. */
    constructor (existing: seq<byte>)
      ensures file == existing && nextLsn == NextLsn(existing)
    {
      file, nextLsn := existing, 1;
      new;
      var r := ReadFile();
      if r.Records? && |r.rs| > 0 {
        nextLsn := r.rs[|r.rs| - 1].lsn + 1;
      }
    }

    /** Appends a record under the next number; a log that held `rs` then holds one record more. */
    method AppendRecord(kind: byte, txn: nat, page: PageId, before: seq<byte>, after: seq<byte>) returns (lsn: nat)
      requires Writable(Record(nextLsn, kind, txn, page, before, after))
      modifies this
      ensures lsn == old(nextLsn) && nextLsn == lsn + 1
      ensures var r := Record(lsn, kind, txn, page, before, after);
              && file == old(file) + Frame(r)
              && forall rs :: AllWritable(rs) && old(file) == File(rs) ==> AllWritable(rs + [r]) && file == File(rs + [r])
    {
      var r := Record(nextLsn, kind, txn, page, before, after);
      nextLsn := nextLsn + 1;
      var buf := EncodeBody(r);
      file := file + ToBytes(|buf|, 4);
      file := file + buf;
      assert file == old(file) + Frame(r);
      forall rs | AllWritable(rs) && old(file) == File(rs) ensures AllWritable(rs + [r]) && file == File(rs + [r]) {
        FileSnoc(rs, r);
      }
      lsn := r.lsn;
    }

    method AppendUpdate(txn: nat, page: PageId, before: seq<byte>, after: seq<byte>) returns (lsn: nat)
      requires nextLsn < TWO_64 && txn < TWO_64 && -TWO_31 <= page < TWO_31
      requires |before| == |after| == PAGE_SIZE
      modifies this
      ensures lsn == old(nextLsn) && nextLsn == lsn + 1
      ensures file == old(file) + Frame(Record(lsn, UPDATE, txn, page, before, after))
    {
      lsn := AppendRecord(UPDATE, txn, page, before, after);
    }

    method AppendCommit(txn: nat) returns (lsn: nat)
      requires nextLsn < TWO_64 && txn < TWO_64
      modifies this
      ensures lsn == old(nextLsn) && nextLsn == lsn + 1
      ensures file == old(file) + Frame(Record(lsn, COMMIT, txn, INVALID_PAGE, [], []))
    {
      lsn := AppendRecord(COMMIT, txn, INVALID_PAGE, [], []);
    }

    method AppendAbort(txn: nat) returns (lsn: nat)
      requires nextLsn < TWO_64 && txn < TWO_64
      modifies this
      ensures lsn == old(nextLsn) && nextLsn == lsn + 1
      ensures file == old(file) + Frame(Record(lsn, ABORT, txn, INVALID_PAGE, [], []))
    {
      lsn := AppendRecord(ABORT, txn, INVALID_PAGE, [], []);
    }

    method AppendCheckpoint() returns (lsn: nat)
      requires nextLsn < TWO_64
      modifies this
      ensures lsn == old(nextLsn) && nextLsn == lsn + 1
      ensures file == old(file) + Frame(Record(lsn, CHECKPOINT, 0, INVALID_PAGE, [], []))
    {
      lsn := AppendRecord(CHECKPOINT, 0, INVALID_PAGE, [], []);
    }

    /** Reads the file from the start, record by record. */
    method ReadFile() returns (r: ReadResult)
      ensures r == ReadAll(file)
    {
      r := ReadBytes(file);
    }
  }

  /** The reading loop: a record's length, its body, and the decoded fields. */
  method ReadBytes(file: seq<byte>) returns (r: ReadResult)
    ensures r == ReadAll(file)
  {
    var records: seq<Record> := [];
    var pos := 0;
    PrependNone(ReadAll(file));
    assert file[0..] == file;
    while true
      invariant 0 <= pos <= |file|
      invariant ReadAll(file) == Prepend(records, ReadAll(file[pos..]))
      decreases |file| - pos
    {
      var rest := file[pos..];
      if |rest| < 4 {
        assert records + [] == records;
        return Records(records);
      }
      var len := FromBytes(rest[..4]);
      pos := pos + 4;
      if |file| - pos < len {
        return Corrupt;
      }
      var buf := file[pos..pos + len];
      assert buf == rest[4..][..len];
      match ParseBody(buf) {
        case Short => return OutOfBounds;
        case BadImages => return Corrupt;
        case Parsed(rec) =>
          pos := pos + len;
          assert file[pos..] == rest[4..][len..];
          PrependTwice(records, [rec], ReadAll(file[pos..]));
          records := records + [rec];
      }
    }
  }

  /** What the log manager is asked to append. */
  datatype Request = Request(kind: byte, txn: nat, page: PageId, before: seq<byte>, after: seq<byte>)

  predicate Acceptable(q: Request) {
    Writable(Record(0, q.kind, q.txn, q.page, q.before, q.after))
  }

  function Assign(qs: seq<Request>, first: nat): seq<Record> {
    if |qs| == 0 then []
    else [Record(first, qs[0].kind, qs[0].txn, qs[0].page, qs[0].before, qs[0].after)] + Assign(qs[1..], first + 1)
  }

  lemma {:induction false} AssignNumbered(qs: seq<Request>, first: nat)
    requires forall i :: 0 <= i < |qs| ==> Acceptable(qs[i])
    requires first + |qs| <= TWO_64
    ensures |Assign(qs, first)| == |qs| && Numbered(Assign(qs, first), first) && AllWritable(Assign(qs, first))
    decreases |qs|
  {
    if |qs| > 0 {
      AssignNumbered(qs[1..], first + 1);
      var rest := Assign(qs[1..], first + 1);
      forall i | 0 <= i < |Assign(qs, first)|
        ensures Assign(qs, first)[i].lsn == first + i && Writable(Assign(qs, first)[i])
      {
        if i > 0 {
          assert Assign(qs, first)[i] == rest[i - 1];
        }
      }
    }
  }

  /**
   Appends, a restart, and more appends: the log reads back as all the requests in order, and
   the numbering continues across the restart without a gap.
   */
  lemma {:induction false} NumberingSurvivesRestart(qs: seq<Request>, more: seq<Request>)
    requires forall i :: 0 <= i < |qs| ==> Acceptable(qs[i])
    requires forall i :: 0 <= i < |more| ==> Acceptable(more[i])
    requires |qs| + |more| < TWO_64
    ensures AllWritable(Assign(qs, 1))
    ensures var f := File(Assign(qs, 1));
            && AllWritable(Assign(more, NextLsn(f)))
            && ReadAll(f + File(Assign(more, NextLsn(f)))) == Records(Assign(qs + more, 1))
  {
    AssignNumbered(qs, 1);
    ReadBack(Assign(qs, 1));
    var f := File(Assign(qs, 1));
    assert NextLsn(f) == 1 + |qs|;
    AssignNumbered(more, 1 + |qs|);
    AssignAppend(qs, more, 1);
    FileAppend(Assign(qs, 1), Assign(more, 1 + |qs|));
    ReadBack(Assign(qs, 1) + Assign(more, 1 + |qs|));
  }

  lemma {:induction false} AssignAppend(a: seq<Request>, b: seq<Request>, first: nat)
    ensures Assign(a + b, first) == Assign(a, first) + Assign(b, first + |a|)
    decreases |a|
  {
    if |a| == 0 {
      assert a + b == b;
    } else {
      assert (a + b)[1..] == a[1..] + b;
      AssignAppend(a[1..], b, first + 1);
    }
  }
}
