/** The recovery manager: three passes over the log that rewrite pages of the data file. */
module RecoveryManager {
  import opened Types
  import opened Bytes
  import opened Wal
  import opened RecoveryModel

  datatype Stats = Stats(redoCount: nat, undoCount: nat, checkpointLsn: nat)

  lemma {:induction false} RedoAppend(a: seq<Record>, b: seq<Record>)
    ensures RedoWrites(a + b) == RedoWrites(a) + RedoWrites(b)
    decreases |b|
  {
    if |b| == 0 {
      assert a + b == a;
    } else {
      assert (a + b)[..|a + b| - 1] == a + b[..|b| - 1];
      RedoAppend(a, b[..|b| - 1]);
    }
  }

  lemma {:induction false} RedoNext(seg: seq<Record>, i: nat)
    requires i < |seg|
    ensures RedoWrites(seg[i..]) == (if seg[i].kind == UPDATE then [Write(seg[i].page, seg[i].after)] else []) + RedoWrites(seg[i + 1..])
  {
    assert seg[i..] == [seg[i]] + seg[i + 1..];
    RedoAppend([seg[i]], seg[i + 1..]);
    assert [seg[i]][..0] == [];
  }

  /** The writes done so far, one more write, and those still to do. */
  lemma {:induction false} OneWrite(d: Disk, done: seq<Write>, w: Write, todo: seq<Write>)
    requires forall i :: 0 <= i < |done| ==> done[i].page in d
    ensures Apply(d, done).Keys == d.Keys
    ensures done + ([w] + todo) == (done + [w]) + todo
    ensures Apply(d, done + [w]) == Apply(d, done)[w.page := w.image]
    ensures w.page !in d ==> Effective(done + ([w] + todo), d.Keys) == done
  {
    ApplyIs(d, done, 0);
    ApplySnoc(d, done, w);
    if w.page !in d {
      EffectiveStops(done, [w] + todo, d.Keys);
    }
  }

  /** Of the writes `all`, those in `done` have been made and those in `rest` have not. */
  ghost predicate Progress(d: Disk, all: seq<Write>, done: seq<Write>, rest: seq<Write>, disk: Disk) {
    && all == done + rest && disk == Apply(d, done) && disk.Keys == d.Keys
    && forall i :: 0 <= i < |done| ==> done[i].page in d
  }

  /** The next write is made, or stops the recovery for good. */
  lemma {:induction false} ProgressStep(d: Disk, all: seq<Write>, done: seq<Write>, w: Write, rest: seq<Write>, disk: Disk)
    requires Progress(d, all, done, [w] + rest, disk)
    ensures w.page in d ==> Progress(d, all, done + [w], rest, disk[w.page := w.image])
    ensures w.page !in d ==> Effective(all, d.Keys) == done && done != all
  {
    OneWrite(d, done, w, rest);
    assert |all| > |done|;
  }

  lemma {:induction false} ProgressEnd(d: Disk, a: seq<Write>, later: seq<Write>, done: seq<Write>, disk: Disk)
    requires Progress(d, a + later, done, later, disk)
    ensures done == a
  {
    assert |done| == |a|;
    assert (a + later)[..|a|] == a && (done + later)[..|a|] == done;
  }

  lemma {:induction false} RedoRest(seg: seq<Record>, i: nat, later: seq<Write>)
    requires i < |seg|
    ensures var rest := RedoWrites(seg[i + 1..]) + later;
            RedoWrites(seg[i..]) + later == if seg[i].kind == UPDATE then [Write(seg[i].page, seg[i].after)] + rest else rest
  {
    RedoNext(seg, i);
  }

  lemma {:induction false} UndoRest(log: seq<Record>, i: nat, committed: set<nat>)
    requires i < |log|
    ensures var rest := UndoWrites(log[..i], committed);
            UndoWrites(log[..i + 1], committed) ==
              if log[i].kind == UPDATE && log[i].txn !in committed then [Write(log[i].page, log[i].before)] + rest else rest
  {
    assert log[..i + 1][..i] == log[..i];
  }

  lemma {:induction false} EffectiveStops(done: seq<Write>, rest: seq<Write>, pages: set<PageId>)
    requires forall i :: 0 <= i < |done| ==> done[i].page in pages
    requires |rest| > 0 && rest[0].page !in pages
    ensures Effective(done + rest, pages) == done
    decreases |done|
  {
    if |done| == 0 {
      assert done + rest == rest;
    } else {
      assert (done + rest)[1..] == done[1..] + rest;
      EffectiveStops(done[1..], rest, pages);
    }
  }

  lemma {:induction false} RedoStartUntil(log: seq<Record>, i: nat)
    requires i < |log|
    ensures RedoStart(log[..i + 1]) == if log[i].kind == CHECKPOINT then i + 1 else RedoStart(log[..i])
  {
    assert log[..i + 1][..i] == log[..i];
  }

  /** The analysis pass: who committed, and where redo starts. */
  method Analyse(log: seq<Record>) returns (committed: set<nat>, redoStart: nat, checkpointLsn: nat)
    ensures committed == Winners(log) && redoStart == RedoStart(log)
    ensures checkpointLsn == if redoStart == 0 then 0 else log[redoStart - 1].lsn
  {
    committed, redoStart, checkpointLsn := {}, 0, 0;
    var aborted: set<nat> := {};
    var i := 0;
    while i < |log|
      invariant i <= |log|
      invariant committed == Winners(log[..i])
      invariant redoStart == RedoStart(log[..i])
      invariant checkpointLsn == if redoStart == 0 then 0 else log[redoStart - 1].lsn
    {
      var r := log[i];
      WinnersUntil(log, i);
      RedoStartUntil(log, i);
      if r.kind == COMMIT {
        committed := committed + {r.txn};
      } else if r.kind == ABORT {
        aborted := aborted + {r.txn};
      } else if r.kind == CHECKPOINT {
        checkpointLsn := r.lsn;
        redoStart := i + 1;
      }
      i := i + 1;
    }
    assert log[..i] == log;
  }

  lemma {:induction false} WinnersUntil(log: seq<Record>, i: nat)
    requires i < |log|
    ensures Winners(log[..i + 1]) == Winners(log[..i]) + if log[i].kind == COMMIT then {log[i].txn} else {}
  {
    var a, b := log[..i], log[..i + 1];
    forall t | t in Winners(b) ensures t in Winners(a) + if log[i].kind == COMMIT then {log[i].txn} else {} {
      var j :| 0 <= j < |b| && b[j].kind == COMMIT && b[j].txn == t;
      assert j < i ==> a[j].kind == COMMIT && a[j].txn == t;
    }
    forall t | t in Winners(a) ensures t in Winners(b) {
      var j :| 0 <= j < |a| && a[j].kind == COMMIT && a[j].txn == t;
      assert b[j].kind == COMMIT && b[j].txn == t;
    }
    assert b[i] == log[i];
  }

  class RecoveryManager {
    var disk: Disk

    constructor (d: Disk)
      ensures disk == d
    {
      disk := d;
    }

    method WritePage(p: PageId, image: Page) returns (status: Status)
      modifies this
      ensures status == (if p in old(disk) then Ok else InvalidArgument)
      ensures disk == if status == Ok then old(disk)[p := image] else old(disk)
    {
      if p !in disk {
        return InvalidArgument;
      }
      disk := disk[p := image];
      status := Ok;
    }

    /** Redo from the checkpoint, then undo backwards over the whole log. */
    method Recover(read: Result<seq<Record>>) returns (r: Result<Stats>)
      modifies this
      ensures read.Failure? ==> r == Failure(read.status) && disk == old(disk)
      ensures read.Success? ==> disk == Recovered(old(disk), read.value)
      ensures read.Success? ==>
                var ws := Writes(read.value);
                if Effective(ws, old(disk).Keys) == ws then
                  r == Success(Stats(|RedoWrites(read.value[RedoStart(read.value)..])|, |UndoWrites(read.value, Winners(read.value))|,
                                     if RedoStart(read.value) == 0 then 0 else read.value[RedoStart(read.value) - 1].lsn))
                else r == Failure(InvalidArgument)
    {
      if read.Failure? {
        return Failure(read.status);
      }
      var log := read.value;
      var committed, redoStart, checkpointLsn := Analyse(log);
      var redone, ok := Redo(log[redoStart..], UndoWrites(log, committed));
      if !ok {
        return Failure(InvalidArgument);
      }
      var undone;
      undone, ok := Undo(log, committed, old(disk), RedoWrites(log[redoStart..]));
      if !ok {
        return Failure(InvalidArgument);
      }
      EffectiveIn(Writes(log), old(disk).Keys);
      r := Success(Stats(redone, undone, checkpointLsn));
    }

    /** Writes the after-images of a stretch of the log; `later` stands for the writes still to come. */
    method Redo(seg: seq<Record>, ghost later: seq<Write>) returns (count: nat, ok: bool)
      modifies this
      ensures ok ==> disk == Apply(old(disk), RedoWrites(seg)) && count == |RedoWrites(seg)|
      ensures ok ==> forall i :: 0 <= i < |RedoWrites(seg)| ==> RedoWrites(seg)[i].page in old(disk)
      ensures !ok ==> disk == Apply(old(disk), Effective(RedoWrites(seg) + later, old(disk).Keys))
      ensures !ok ==> Effective(RedoWrites(seg) + later, old(disk).Keys) != RedoWrites(seg) + later
    {
      count := 0;
      var i := 0;
      ghost var done: seq<Write>, all := [], RedoWrites(seg) + later;
      assert seg[0..] == seg;
      while i < |seg|
        invariant i <= |seg| && count == |done|
        invariant Progress(old(disk), all, done, RedoWrites(seg[i..]) + later, disk)
      {
        var r := seg[i];
        RedoRest(seg, i, later);
        if r.kind == UPDATE {
          ghost var w := Write(r.page, r.after);
          ProgressStep(old(disk), all, done, w, RedoWrites(seg[i + 1..]) + later, disk);
          var status := WritePage(r.page, r.after);
          if status != Ok {
            return count, false;
          }
          done := done + [w];
          count := count + 1;
        }
        i := i + 1;
      }
      assert seg[i..] == [] && RedoWrites([]) + later == later;
      ProgressEnd(old(disk), RedoWrites(seg), later, done, disk);
      ok := true;
    }

    /** Writes the before-images of the losers, newest first; `before` are the writes already made on disk `d`. */
    method Undo(log: seq<Record>, committed: set<nat>, ghost d: Disk, ghost before: seq<Write>) returns (count: nat, ok: bool)
      requires disk == Apply(d, before) && forall i :: 0 <= i < |before| ==> before[i].page in d
      modifies this
      ensures ok ==> disk == Apply(d, before + UndoWrites(log, committed)) && count == |UndoWrites(log, committed)|
      ensures ok ==> Effective(before + UndoWrites(log, committed), d.Keys) == before + UndoWrites(log, committed)
      ensures !ok ==> disk == Apply(d, Effective(before + UndoWrites(log, committed), d.Keys))
      ensures !ok ==> Effective(before + UndoWrites(log, committed), d.Keys) != before + UndoWrites(log, committed)
    {
      count := 0;
      var i := |log|;
      ghost var done, all := before, before + UndoWrites(log, committed);
      assert log[..i] == log;
      ApplyIs(d, before, 0);
      while i > 0
        invariant 0 <= i <= |log| && |done| == |before| + count
        invariant Progress(d, all, done, UndoWrites(log[..i], committed), disk)
      {
        i := i - 1;
        var r := log[i];
        UndoRest(log, i, committed);
        if r.kind == UPDATE {
          var needsUndo := r.txn !in committed;
          if needsUndo {
            ghost var w := Write(r.page, r.before);
            ProgressStep(d, all, done, w, UndoWrites(log[..i], committed), disk);
            var status := WritePage(r.page, r.before);
            if status != Ok {
              return count, false;
            }
            done := done + [w];
            count := count + 1;
          }
        }
      }
      assert log[..0] == [] && done + [] == done;
      EffectiveIn(all, d.Keys);
      ok := true;
    }
  }
}
