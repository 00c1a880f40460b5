/**
 What a transaction that has aborted still sees. Over every disciplined run it sees two versions
 of a row exactly when it wrote one of them and the version it had replaced was taken over by
 someone else.
 */
module MvccAborted {
  import opened Types
  import opened Mvcc
  import opened MvccIsolation

  predicate Snapshot(m: Manager, r: TxnId) {
    r in m.txns && m.txns[r].level == SnapshotIsolation
  }

  /* ---------- What every version remembers ---------- */

  /** Until its creator commits, a version can only be marked by its creator. */
  predicate MarkOk(s: State, rid: RecordId)
    requires rid in s.heap
  {
    var v := s.heap[rid];
    HasState(s.mgr, v.xmin, Committed) || v.xmax == INVALID_TXN || v.xmax == v.xmin
  }

  /** A row that was not created by the creator of a version was committed. */
  predicate RootOk(s: State, rid: RecordId)
    requires rid in s.heap
  {
    var v := s.heap[rid];
    v.row in s.heap && (s.heap[v.row].xmin == v.xmin || HasState(s.mgr, s.heap[v.row].xmin, Committed))
  }

  /** Of the versions of a row by one creator at most one carries no mark. */
  predicate OneOpen(s: State, a: RecordId, b: RecordId)
    requires a in s.heap && b in s.heap
  {
    var x, y := s.heap[a], s.heap[b];
    x.row == y.row && x.xmin == y.xmin && x.xmax == INVALID_TXN && y.xmax == INVALID_TXN ==> a == b
  }

  /** A snapshot transaction has only marked versions it saw. */
  predicate MarkedSeen(s: State, rid: RecordId)
    requires rid in s.heap
  {
    var v := s.heap[rid];
    Snapshot(s.mgr, v.xmax) && v.xmin != v.xmax ==> InSnapshot(s.mgr, v.xmin, s.mgr.txns[v.xmax])
  }

  /** Version `a` of another creator is the one that transaction `r` replaced on this row. */
  predicate Replaced(s: State, r: TxnId, row: RecordId, a: RecordId)
    requires r in s.mgr.txns
  {
    && row in s.lines && a in s.lines[row] && a in s.heap && s.heap[a].row == row && s.heap[a].xmin != r
    && InSnapshot(s.mgr, s.heap[a].xmin, s.mgr.txns[r])
    && !CommittedAndVisibleTo(s.mgr, s.heap[a].xmax, s.mgr.txns[r])
  }

  /** A version of a row that its creator did not create replaced one. */
  ghost predicate ReplacedOne(s: State, rid: RecordId)
    requires rid in s.heap
  {
    var r, row := s.heap[rid].xmin, s.heap[rid].row;
    Snapshot(s.mgr, r) && row in s.heap && s.heap[row].xmin != r ==> exists a :: Replaced(s, r, row, a)
  }

  ghost predicate History(s: State) {
    && (forall rid :: rid in s.heap ==> MarkOk(s, rid) && RootOk(s, rid) && MarkedSeen(s, rid))
    && (forall rid :: rid in s.heap ==> ReplacedOne(s, rid))
    && (forall a, b :: a in s.heap && b in s.heap ==> OneOpen(s, a, b))
  }

  /* ---------- Every allowed step keeps it ---------- */

  /** A step keeps a version's creator and row, and changes its mark only as the discipline allows. */
  lemma {:induction false} VersionKept(s: State, op: Op, rid: RecordId)
    requires ManagerInv(s.mgr) && Allowed(s, op) && rid in s.heap
    ensures rid in Step(s, op).heap
    ensures var v, w := s.heap[rid], Step(s, op).heap[rid];
            && w.xmin == v.xmin && w.row == v.row
            && (w.xmax == v.xmax || (MayStamp(s, w.xmax, rid) && w.xmax != INVALID_TXN))
  {
  }

  lemma {:induction false} CommittedStays(s: State, op: Op, t: TxnId)
    requires ManagerInv(s.mgr)
    ensures HasState(s.mgr, t, Committed) ==> HasState(Step(s, op).mgr, t, Committed)
  {
  }

  lemma {:induction false} MarkStep(s: State, op: Op, rid: RecordId)
    requires ManagerInv(s.mgr) && Allowed(s, op) && rid in s.heap && MarkOk(s, rid)
    ensures rid in Step(s, op).heap && MarkOk(Step(s, op), rid)
  {
    VersionKept(s, op, rid);
    CommittedStays(s, op, s.heap[rid].xmin);
  }

  lemma {:induction false} RootStep(s: State, op: Op, rid: RecordId)
    requires ManagerInv(s.mgr) && Allowed(s, op) && rid in s.heap && RootOk(s, rid)
    ensures rid in Step(s, op).heap && RootOk(Step(s, op), rid)
  {
    VersionKept(s, op, rid);
    VersionKept(s, op, s.heap[rid].row);
    CommittedStays(s, op, s.heap[s.heap[rid].row].xmin);
  }

  lemma {:induction false} NewRoot(s: State, op: Op)
    requires ManagerInv(s.mgr) && Allowed(s, op) && op.OpUpdate? && op.prev in s.heap && RootOk(s, op.prev)
    ensures op.rid in Step(s, op).heap && RootOk(Step(s, op), op.rid)
  {
    VersionKept(s, op, s.heap[op.prev].row);
  }

  lemma {:induction false} MarkedStep(s: State, op: Op, rid: RecordId)
    requires ManagerInv(s.mgr) && HeapInv(s) && Allowed(s, op) && rid in s.heap && MarkedSeen(s, rid)
    ensures rid in Step(s, op).heap && MarkedSeen(Step(s, op), rid)
  {
    VersionKept(s, op, rid);
    var v := Step(s, op).heap[rid];
    if Snapshot(s.mgr, v.xmax) {
      SnapshotFixed(s, op, v.xmax, v.xmin);
      VisibleIff(s.mgr, s.heap[rid], s.mgr.txns[v.xmax]);
    }
  }

  /** An unmarked version whose creator is active is the last of its line. */
  lemma {:induction false} OpenIsLast(s: State, rid: RecordId)
    requires Inv(s) && rid in s.heap && HasState(s.mgr, s.heap[rid].xmin, Active) && s.heap[rid].xmax == INVALID_TXN
    ensures var row := s.heap[rid].row;
            row in s.lines && |s.lines[row]| > 0 && s.lines[row][|s.lines[row]| - 1] == rid
  {
    var row := s.heap[rid].row;
    var line := s.lines[row];
    assert rid in line;
    var i :| 0 <= i < |line| && line[i] == rid;
    if i < |line| - 1 {
      SupersededForGood(s, row, line, i);
    }
  }

  lemma {:induction false} OpenStep(s: State, op: Op, a: RecordId, b: RecordId)
    requires ManagerInv(s.mgr) && Allowed(s, op) && a in s.heap && b in s.heap && OneOpen(s, a, b)
    ensures a in Step(s, op).heap && b in Step(s, op).heap && OneOpen(Step(s, op), a, b)
  {
    VersionKept(s, op, a);
    VersionKept(s, op, b);
  }

  /** The new version of a step is the only unmarked one of its creator on its row. */
  lemma {:induction false} InsertedOpen(s: State, op: Op, a: RecordId)
    requires ManagerInv(s.mgr) && Allowed(s, op) && op.OpInsert? && a in s.heap && RootOk(s, a)
    ensures OneOpen(Step(s, op), a, op.rid) && OneOpen(Step(s, op), op.rid, a)
  {
    VersionKept(s, op, a);
  }

  lemma {:induction false} UpdatedOpen(s: State, op: Op, a: RecordId)
    requires Inv(s) && Allowed(s, op) && op.OpUpdate? && a in s.heap
    ensures a in Step(s, op).heap && OneOpen(Step(s, op), a, op.rid) && OneOpen(Step(s, op), op.rid, a)
  {
    VersionKept(s, op, a);
    var w := Step(s, op).heap[a];
    if w.row == s.heap[op.prev].row && w.xmin == op.t && w.xmax == INVALID_TXN {
      StampsLast(s, op.t, op.prev);
      OpenIsLast(s, a);
    }
  }

  /** The version a transaction replaced stays so, whoever marks it later. */
  lemma {:induction false} ReplacedStays(s: State, op: Op, r: TxnId, row: RecordId, a: RecordId)
    requires Inv(s) && Allowed(s, op) && Snapshot(s.mgr, r) && Replaced(s, r, row, a)
    ensures r in Step(s, op).mgr.txns && Replaced(Step(s, op), r, row, a)
  {
    var s2 := Step(s, op);
    SnapshotFixed(s, op, r, s.heap[a].xmin);
    SnapshotFixed(s, op, r, s2.heap[a].xmax);
    SnapshotFixed(s, op, r, s.heap[a].xmax);
    if op.OpAbort? && HasState(s.mgr, op.t, Active) {
      AbortLine(s, op, row);
    }
    if s2.heap[a].xmax == r {
      assert HasState(s2.mgr, r, Committed) ==> !(r < s2.mgr.txns[r].id);
    }
  }

  lemma {:induction false} NewReplaced(s: State, op: Op)
    requires Inv(s) && History(s) && Allowed(s, op) && op.OpUpdate?
    ensures ReplacedOne(Step(s, op), op.rid)
  {
    var s2 := Step(s, op);
    var row := s.heap[op.prev].row;
    StampsLast(s, op.t, op.prev);
    if Snapshot(s.mgr, op.t) && row in s.heap && s.heap[row].xmin != op.t {
      if s.heap[op.prev].xmin == op.t {
        assert ReplacedOne(s, op.prev);
        var a :| Replaced(s, op.t, row, a);
        ReplacedStays(s, op, op.t, row, a);
      } else {
        VisibleIff(s.mgr, s.heap[op.prev], s.mgr.txns[op.t]);
        assert Replaced(s2, op.t, row, op.prev);
      }
    }
  }

  lemma {:induction false} ReplacedStep(s: State, op: Op, rid: RecordId)
    requires Inv(s) && Allowed(s, op) && rid in s.heap && RootOk(s, rid) && ReplacedOne(s, rid)
    ensures rid in Step(s, op).heap && ReplacedOne(Step(s, op), rid)
  {
    var r, row := s.heap[rid].xmin, s.heap[rid].row;
    VersionKept(s, op, rid);
    VersionKept(s, op, row);
    assert r in s.mgr.txns;
    if Snapshot(s.mgr, r) && s.heap[row].xmin != r {
      var a :| Replaced(s, r, row, a);
      ReplacedStays(s, op, r, row, a);
    }
  }

  /** The step adds at most one version, and only an insert or an update does. */
  lemma {:induction false} NewVersion(s: State, op: Op, rid: RecordId)
    requires rid in Step(s, op).heap && rid !in s.heap
    ensures (op.OpInsert? || op.OpUpdate?) && rid == op.rid
    ensures var v := Step(s, op).heap[rid];
            v.xmin == op.t && v.xmax == INVALID_TXN && (op.OpInsert? ==> v.row == rid) && (op.OpUpdate? ==> op.prev in s.heap)
  {
  }

  lemma {:induction false} StepMarks(s: State, op: Op, rid: RecordId)
    requires ManagerInv(s.mgr) && HeapInv(s) && History(s) && Allowed(s, op) && rid in Step(s, op).heap
    ensures MarkOk(Step(s, op), rid) && RootOk(Step(s, op), rid) && MarkedSeen(Step(s, op), rid)
  {
    if rid in s.heap {
      MarkStep(s, op, rid);
      RootStep(s, op, rid);
      MarkedStep(s, op, rid);
    } else {
      NewVersion(s, op, rid);
      ManagerStep(s, op);
      if op.OpUpdate? {
        NewRoot(s, op);
      }
    }
  }

  lemma {:induction false} StepReplaced(s: State, op: Op, rid: RecordId)
    requires Inv(s) && History(s) && Allowed(s, op) && rid in Step(s, op).heap
    ensures ReplacedOne(Step(s, op), rid)
  {
    if rid in s.heap {
      ReplacedStep(s, op, rid);
    } else {
      NewVersion(s, op, rid);
      if op.OpUpdate? {
        NewReplaced(s, op);
      }
    }
  }

  lemma {:induction false} StepOpen(s: State, op: Op, a: RecordId, b: RecordId)
    requires Inv(s) && History(s) && Allowed(s, op) && a in Step(s, op).heap && b in Step(s, op).heap
    ensures OneOpen(Step(s, op), a, b)
  {
    if a in s.heap && b in s.heap {
      OpenStep(s, op, a, b);
    } else if a != b {
      var x, added := if a in s.heap then a else b, if a in s.heap then b else a;
      NewVersion(s, op, added);
      if x !in s.heap {
        NewVersion(s, op, x);
      } else if op.OpInsert? {
        InsertedOpen(s, op, x);
      } else {
        UpdatedOpen(s, op, x);
      }
    }
  }

  lemma {:induction false} StepHistory(s: State, op: Op)
    requires Inv(s) && History(s) && Allowed(s, op)
    ensures History(Step(s, op))
  {
    var s2 := Step(s, op);
    forall rid | rid in s2.heap
      ensures MarkOk(s2, rid) && RootOk(s2, rid) && MarkedSeen(s2, rid) && ReplacedOne(s2, rid)
    {
      StepMarks(s, op, rid);
      StepReplaced(s, op, rid);
    }
    forall a, b | a in s2.heap && b in s2.heap ensures OneOpen(s2, a, b) {
      StepOpen(s, op, a, b);
    }
  }

  lemma {:induction false} RunHistory(ops: seq<Op>)
    requires AllowedRun(START, ops)
    ensures Inv(Run(START, ops)) && History(Run(START, ops))
    decreases |ops|
  {
    StartInv();
    RunInv(START, ops);
    if |ops| > 0 {
      RunHistory(ops[..|ops| - 1]);
      StepHistory(Run(START, ops[..|ops| - 1]), ops[|ops| - 1]);
    }
  }

  /* ---------- What an aborted reader sees ---------- */

  predicate AbortedReader(m: Manager, r: TxnId) {
    Snapshot(m, r) && m.txns[r].state == Aborted
  }

  /** The reader wrote this version of the row and did not supersede it itself. */
  predicate OwnOpen(s: State, r: TxnId, row: RecordId, b: RecordId) {
    b in s.heap && s.heap[b].row == row && s.heap[b].xmin == r && s.heap[b].xmax == INVALID_TXN
  }

  /** A version of someone else still carries the reader's mark. */
  predicate StillMarked(s: State, r: TxnId, row: RecordId, c: RecordId) {
    c in s.heap && s.heap[c].row == row && s.heap[c].xmin != r && s.heap[c].xmax == r
  }

  predicate SeesOn(s: State, r: TxnId, row: RecordId, a: RecordId)
    requires r in s.mgr.txns
  {
    Sees(s, r, a) && s.heap[a].row == row
  }

  ghost predicate SeesTwo(s: State, r: TxnId, row: RecordId)
    requires r in s.mgr.txns
  {
    exists a, b :: a != b && SeesOn(s, r, row, a) && SeesOn(s, r, row, b)
  }

  /** The reader wrote a version of a row it had not created, and the version it replaced has since been marked by another. */
  ghost predicate TakenOver(s: State, r: TxnId, row: RecordId) {
    && row in s.heap && s.heap[row].xmin != r
    && (exists b :: OwnOpen(s, r, row, b))
    && !(exists c :: StillMarked(s, r, row, c))
  }

  /** What an aborted reader sees is its own open version, or a version on the line. */
  lemma {:induction false} SeenByAborted(s: State, r: TxnId, row: RecordId, a: RecordId)
    requires Inv(s) && History(s) && AbortedReader(s.mgr, r) && SeesOn(s, r, row, a)
    ensures InSnapshot(s.mgr, s.heap[a].xmin, s.mgr.txns[r]) && !InSnapshot(s.mgr, s.heap[a].xmax, s.mgr.txns[r])
    ensures s.heap[a].xmin == r ==> OwnOpen(s, r, row, a)
    ensures s.heap[a].xmin != r ==> row in s.lines && a in s.lines[row]
  {
    VisibleIff(s.mgr, s.heap[a], s.mgr.txns[r]);
    assert MarkOk(s, a);
  }

  /** Of two versions on a line whose creators are in the snapshot, only the later one can be seen. */
  lemma {:induction false} OnlyLaterSeen(s: State, r: TxnId, row: RecordId, i: nat, j: nat)
    requires Inv(s) && Snapshot(s.mgr, r) && row in s.lines && i < j < |s.lines[row]|
    requires s.lines[row][j] in s.heap && InSnapshot(s.mgr, s.heap[s.lines[row][j]].xmin, s.mgr.txns[r])
    ensures s.lines[row][i] in s.heap && InSnapshot(s.mgr, s.heap[s.lines[row][i]].xmax, s.mgr.txns[r])
    ensures !HasState(s.mgr, s.heap[s.lines[row][i]].xmax, Aborted)
  {
    var line := s.lines[row];
    EarlierIsHidden(s, row, line, r, i, j);
    SupersededForGood(s, row, line, i);
  }

  lemma {:induction false} OneIsHidden(s: State, r: TxnId, row: RecordId, a: RecordId, b: RecordId)
    requires Inv(s) && Snapshot(s.mgr, r) && row in s.lines && a in s.lines[row] && b in s.lines[row] && a != b
    requires a in s.heap && b in s.heap
    requires InSnapshot(s.mgr, s.heap[a].xmin, s.mgr.txns[r]) && InSnapshot(s.mgr, s.heap[b].xmin, s.mgr.txns[r])
    ensures Superseded(s, r, a) || Superseded(s, r, b)
  {
    var line := s.lines[row];
    var i :| 0 <= i < |line| && line[i] == a;
    var j :| 0 <= j < |line| && line[j] == b;
    if i < j {
      OnlyLaterSeen(s, r, row, i, j);
    } else {
      OnlyLaterSeen(s, r, row, j, i);
    }
  }

  /** The version is hidden by a transaction that has not aborted and whose writes the reader sees. */
  predicate Superseded(s: State, r: TxnId, a: RecordId)
    requires r in s.mgr.txns && a in s.heap
  {
    InSnapshot(s.mgr, s.heap[a].xmax, s.mgr.txns[r]) && !HasState(s.mgr, s.heap[a].xmax, Aborted)
  }

  lemma {:induction false} TwoNeedsOwn(s: State, r: TxnId, row: RecordId, a: RecordId, b: RecordId)
    requires Inv(s) && History(s) && AbortedReader(s.mgr, r)
    requires a != b && SeesOn(s, r, row, a) && SeesOn(s, r, row, b)
    ensures (s.heap[a].xmin == r) != (s.heap[b].xmin == r)
  {
    SeenByAborted(s, r, row, a);
    SeenByAborted(s, r, row, b);
    if s.heap[a].xmin != r && s.heap[b].xmin != r {
      OneIsHidden(s, r, row, a, b);
    }
  }

  lemma {:induction false} TwoMeansTakenOver(s: State, r: TxnId, row: RecordId, own: RecordId, other: RecordId)
    requires Inv(s) && History(s) && AbortedReader(s.mgr, r)
    requires SeesOn(s, r, row, own) && s.heap[own].xmin == r && SeesOn(s, r, row, other) && s.heap[other].xmin != r
    ensures TakenOver(s, r, row)
  {
    SeenByAborted(s, r, row, own);
    SeenByAborted(s, r, row, other);
    assert OwnOpen(s, r, row, own);
    assert RootOk(s, other);
    forall c ensures !StillMarked(s, r, row, c) {
      NoMarkWhenSeen(s, r, row, other, c);
    }
  }

  lemma {:induction false} MarkedOnLine(s: State, r: TxnId, row: RecordId, c: RecordId)
    requires ManagerInv(s.mgr) && RowsInv(s) && History(s) && AbortedReader(s.mgr, r) && StillMarked(s, r, row, c)
    ensures row in s.lines && c in s.lines[row] && InSnapshot(s.mgr, s.heap[c].xmin, s.mgr.txns[r])
  {
    assert MarkOk(s, c) && MarkedSeen(s, c);
  }

  /** While the reader sees a version of someone else, none on that row carries its mark. */
  lemma {:induction false} NoMarkWhenSeen(s: State, r: TxnId, row: RecordId, a: RecordId, c: RecordId)
    requires Inv(s) && History(s) && AbortedReader(s.mgr, r)
    requires SeesOn(s, r, row, a) && s.heap[a].xmin != r
    ensures !StillMarked(s, r, row, c)
  {
    SeenByAborted(s, r, row, a);
    if StillMarked(s, r, row, c) {
      MarkedOnLine(s, r, row, c);
      OneIsHidden(s, r, row, a, c);
    }
  }

  /** A reader that has aborted sees two versions of a row if and only if what it replaced there was taken over. */
  lemma {:induction false} AbortedSeesTwoIff(s: State, r: TxnId, row: RecordId)
    requires Inv(s) && History(s) && AbortedReader(s.mgr, r)
    ensures SeesTwo(s, r, row) <==> TakenOver(s, r, row)
  {
    if SeesTwo(s, r, row) {
      var a, b :| a != b && SeesOn(s, r, row, a) && SeesOn(s, r, row, b);
      TwoNeedsOwn(s, r, row, a, b);
      if s.heap[a].xmin == r {
        TwoMeansTakenOver(s, r, row, a, b);
      } else {
        TwoMeansTakenOver(s, r, row, b, a);
      }
    }
    if TakenOver(s, r, row) {
      var b :| OwnOpen(s, r, row, b);
      assert ReplacedOne(s, b);
      var a :| Replaced(s, r, row, a);
      assert !StillMarked(s, r, row, a);
      VisibleIff(s.mgr, s.heap[a], s.mgr.txns[r]);
      VisibleIff(s.mgr, s.heap[b], s.mgr.txns[r]);
      assert SeesOn(s, r, row, a) && SeesOn(s, r, row, b);
    }
  }

  /** In every disciplined run. */
  lemma {:induction false} AbortedSeesTwoRun(ops: seq<Op>, r: TxnId, row: RecordId)
    requires AllowedRun(START, ops) && AbortedReader(Run(START, ops).mgr, r)
    ensures SeesTwo(Run(START, ops), r, row) <==> TakenOver(Run(START, ops), r, row)
  {
    RunHistory(ops);
    AbortedSeesTwoIff(Run(START, ops), r, row);
  }
}
