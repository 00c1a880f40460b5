/** Where snapshot isolation ends: what an unchecked mark does to a reader, and two runs that break the promise. */
module MvccLimits {
  import opened Types
  import opened Mvcc
  import opened MvccIsolation

  predicate Returned(out: seq<Tuple>, rid: RecordId) {
    exists i :: 0 <= i < |out| && out[i].rid == rid
  }

  lemma {:induction false} ScanMembers(m: Manager, h: map<RecordId, Version>, order: seq<RecordId>, t: Txn, rid: RecordId)
    requires rid in h
    ensures Returned(Scan(m, h, order, t), rid) <==> rid in order && IsVisible(m, h[rid], t)
  {
    if |order| > 0 {
      var rest := Scan(m, h, order[1..], t);
      var all := Scan(m, h, order, t);
      ScanMembers(m, h, order[1..], t, rid);
      if order[0] in h && IsVisible(m, h[order[0]], t) {
        assert all == [Tuple(order[0], h[order[0]].data)] + rest;
        if i :| 0 <= i < |rest| && rest[i].rid == rid {
          assert all[i + 1].rid == rid;
        }
        if order[0] == rid {
          assert all[0].rid == rid;
        }
        if i :| 0 <= i < |all| && all[i].rid == rid && i > 0 {
          assert rest[i - 1].rid == rid;
        }
      } else {
        assert all == rest;
      }
      assert rid in order <==> order[0] == rid || rid in order[1..];
    }
  }

  /**
   Superseding a version without looking at the mark it carries keeps a snapshot reader's
   view if and only if the reader does not have both the creator and the transaction of the
   old mark in its snapshot; otherwise a row the reader had seen deleted comes back.
   */
  lemma {:induction false} UncheckedMarkKeepsViewIff(s: State, t: TxnId, prev: RecordId, r: TxnId)
    requires ManagerInv(s.mgr) && HeapInv(s) && prev in s.heap
    requires HasState(s.mgr, t, Active) && t != r && SnapshotReader(s.mgr, r)
    ensures ScanVisible(DeleteVersion(s, t, prev), r) == ScanVisible(s, r)
            <==> !(InSnapshot(s.mgr, s.heap[prev].xmin, s.mgr.txns[r]) && InSnapshot(s.mgr, s.heap[prev].xmax, s.mgr.txns[r]))
  {
    var s2 := DeleteVersion(s, t, prev);
    var reader := s.mgr.txns[r];
    VisibleIff(s.mgr, s.heap[prev], reader);
    VisibleIff(s.mgr, s2.heap[prev], reader);
    if IsVisible(s.mgr, s2.heap[prev], reader) == IsVisible(s.mgr, s.heap[prev], reader) {
      ScanSame(s.mgr, s.heap, reader, s2.mgr, s2.heap, reader, s.order);
    } else {
      ScanMembers(s.mgr, s.heap, s.order, reader, prev);
      ScanMembers(s.mgr, s2.heap, s.order, reader, prev);
    }
  }

  predicate Last(s: State, prev: RecordId)
    requires prev in s.heap
  {
    var row := s.heap[prev].row;
    row in s.lines && |s.lines[row]| > 0 && s.lines[row][|s.lines[row]| - 1] == prev
  }

  /** A client that looks whether it sees a version, and not at the mark the version carries. */
  predicate Unchecked(s: State, op: Op) {
    && (op.OpDelete? || op.OpUpdate?)
    && HasState(s.mgr, op.t, Active) && op.prev in s.heap
    && IsVisible(s.mgr, s.heap[op.prev], s.mgr.txns[op.t])
    && (op.OpUpdate? ==> op.rid !in s.heap)
  }

  /** Some transaction has already put a version in the place of this one. */
  ghost predicate Replaced(s: State, prev: RecordId)
    requires prev in s.heap
  {
    exists v :: IsReplacement(s, prev, v)
  }

  predicate IsReplacement(s: State, prev: RecordId, v: RecordId)
    requires prev in s.heap
  {
    && v in s.heap && s.heap[v].row == s.heap[prev].row && s.heap[v].xmin == s.heap[prev].xmax
    && !HasState(s.mgr, s.heap[v].xmin, Aborted)
  }

  /** A visible version is on the line of its row. */
  lemma {:induction false} VisibleOnLine(s: State, op: Op) returns (i: nat)
    requires Inv(s) && Unchecked(s, op)
    ensures var row := s.heap[op.prev].row; row in s.lines && i < |s.lines[row]| && s.lines[row][i] == op.prev
    ensures HasState(s.mgr, s.heap[op.prev].xmin, Committed) || s.heap[op.prev].xmin == op.t
  {
    var line := s.lines[s.heap[op.prev].row];
    assert op.prev in line;
    i :| 0 <= i < |line| && line[i] == op.prev;
  }

  /** For a snapshot transaction the last version is the one that nobody has replaced. */
  lemma {:induction false} LastIffNotReplaced(s: State, op: Op)
    requires Inv(s) && Unchecked(s, op) && s.mgr.txns[op.t].level == SnapshotIsolation
    ensures Last(s, op.prev) <==> !Replaced(s, op.prev)
  {
    var i := VisibleOnLine(s, op);
    var row := s.heap[op.prev].row;
    var line := s.lines[row];
    VisibleIff(s.mgr, s.heap[op.prev], s.mgr.txns[op.t]);
    if i < |line| - 1 {
      assert Link(s, op.prev, line[i + 1]) && OnLine(s, row, line[i + 1]);
      assert IsReplacement(s, op.prev, line[i + 1]);
      assert line[|line| - 1] != op.prev;
    } else if v :| IsReplacement(s, op.prev, v) {
      assert v in line;
      var j :| 0 <= j < |line| && line[j] == v;
      SnapshotIsPrefix(s, row, line, op.t, j, i);
    }
  }

  /** Superseding a version that is not the last breaks the line at that place. */
  lemma {:induction false} NotLastBreaks(s: State, op: Op)
    requires Inv(s) && Unchecked(s, op) && !Last(s, op.prev)
    ensures !LinesInv(Step(s, op))
  {
    var i := VisibleOnLine(s, op);
    var row := s.heap[op.prev].row;
    var line := s.lines[row];
    var s2 := Step(s, op);
    assert Link(s, op.prev, line[i + 1]);
    assert OnLine(s, row, line[i + 1]);
    assert s2.lines[row][i] == op.prev && s2.lines[row][i + 1] == line[i + 1];
    assert line[i + 1] != op.prev;
    assert !Link(s2, op.prev, line[i + 1]);
    assert !LineInv(s2, row, s2.lines[row]);
  }

  /** Superseding the last version, whatever mark it carries, keeps every line. */
  lemma {:induction false} LastKeepsLine(s: State, op: Op, row: RecordId)
    requires Inv(s) && Unchecked(s, op) && Last(s, op.prev) && row in s.lines
    ensures LineInv(Step(s, op), row, s.lines[row])
  {
    var line := s.lines[row];
    assert forall i :: 0 <= i < |line| ==> OnLine(s, row, line[i]);
    assert forall i :: 0 <= i < |line| - 1 ==> line[i] != op.prev;
    LineStep(s, op, row, line);
  }

  lemma {:induction false} LastLinks(s: State, op: Op)
    requires Inv(s) && Unchecked(s, op) && op.OpUpdate?
    ensures Link(Step(s, op), op.prev, op.rid)
  {
    var i := VisibleOnLine(s, op);
    var s2 := Step(s, op);
    forall x | x in s2.mgr.txns && s2.mgr.txns[x].level == SnapshotIsolation && InSnapshot(s2.mgr, op.t, s2.mgr.txns[x])
      ensures InSnapshot(s2.mgr, s.heap[op.prev].xmin, s2.mgr.txns[x])
    {
      VisibleIff(s.mgr, s.heap[op.prev], s.mgr.txns[x]);
    }
  }

  lemma {:induction false} LastExtends(s: State, op: Op)
    requires Inv(s) && Unchecked(s, op) && Last(s, op.prev) && op.OpUpdate?
    ensures LineInv(Step(s, op), s.heap[op.prev].row, s.lines[s.heap[op.prev].row] + [op.rid])
  {
    var row := s.heap[op.prev].row;
    LastKeepsLine(s, op, row);
    LastLinks(s, op);
    assert op.rid !in s.lines[row] by {
      assert forall i :: 0 <= i < |s.lines[row]| ==> OnLine(s, row, s.lines[row][i]);
    }
    LongerLine(Step(s, op), row, s.lines[row], op.rid);
  }

  lemma {:induction false} LastKeepsLines(s: State, op: Op)
    requires Inv(s) && Unchecked(s, op) && Last(s, op.prev)
    ensures LinesInv(Step(s, op))
  {
    var s2 := Step(s, op);
    var r := s.heap[op.prev].row;
    if op.OpUpdate? {
      LastExtends(s, op);
    }
    forall row | row in s2.lines ensures LineInv(s2, row, s2.lines[row]) {
      if op.OpDelete? || row != r {
        LastKeepsLine(s, op, row);
      }
    }
  }

  lemma {:induction false} UncheckedHeap(s: State, op: Op)
    requires ManagerInv(s.mgr) && HeapInv(s) && Unchecked(s, op)
    ensures HeapInv(Step(s, op))
  {
    if op.OpUpdate? {
      PutAtMembers(s.order, op.at, op.rid);
    }
  }

  lemma {:induction false} UncheckedRows(s: State, op: Op)
    requires RowsInv(s) && Unchecked(s, op)
    ensures RowsInv(Step(s, op))
  {
  }

  /**
   A client that supersedes a version it sees without looking at its mark keeps the versions
   of every row in one line if and only if the version is the last of its row.
   */
  lemma {:induction false} UncheckedKeepsInvIff(s: State, op: Op)
    requires Inv(s) && Unchecked(s, op)
    ensures Inv(Step(s, op)) <==> Last(s, op.prev)
  {
    if Last(s, op.prev) {
      LastKeepsLines(s, op);
      UncheckedHeap(s, op);
      UncheckedRows(s, op);
    } else {
      NotLastBreaks(s, op);
    }
  }

  /**
   What the broken line means to readers: once the superseding transaction commits, the next
   snapshot reader sees both its version and the last of the line, if that one is committed
   and nobody who commits has superseded it.
   */
  lemma {:induction false} NotLastShowsTwo(s: State, op: Op, tip: RecordId)
    requires ManagerInv(s.mgr) && HeapInv(s) && Unchecked(s, op) && op.OpUpdate? && !Last(s, op.prev)
    requires tip in s.heap && s.heap[tip].row == s.heap[op.prev].row && Last(s, tip)
    requires HasState(s.mgr, s.heap[tip].xmin, Committed)
    requires s.heap[tip].xmax != op.t && !HasState(s.mgr, s.heap[tip].xmax, Committed)
    ensures var end := Step(Step(Step(s, op), OpCommit(op.t)), OpBegin(SnapshotIsolation));
            && SnapshotReader(end.mgr, s.mgr.next) && tip != op.rid
            && Sees(end, s.mgr.next, tip) && Sees(end, s.mgr.next, op.rid) && end.heap[tip].row == end.heap[op.rid].row
  {
    var end := Step(Step(Step(s, op), OpCommit(op.t)), OpBegin(SnapshotIsolation));
    var reader := end.mgr.txns[s.mgr.next];
    assert tip != op.prev;
    assert end.heap[tip] == s.heap[tip];
    VisibleIff(end.mgr, end.heap[tip], reader);
    VisibleIff(end.mgr, end.heap[op.rid], reader);
  }

  lemma {:induction false} RunSnoc(s: State, ops: seq<Op>, op: Op)
    ensures Run(s, ops + [op]) == Step(Run(s, ops), op)
    ensures AllowedRun(s, ops + [op]) <==> AllowedRun(s, ops) && Allowed(Run(s, ops), op)
  {
    assert (ops + [op])[..|ops|] == ops;
  }

  const A := RecordId(1, 0)
  const B := RecordId(1, 1)
  const C := RecordId(1, 2)

  /** One row, inserted and committed by transaction 1. */
  lemma {:induction false} OneRow() returns (ops: seq<Op>, s: State)
    ensures s == Run(START, ops) && AllowedRun(START, ops)
    ensures s.mgr.next == 2 && s.mgr.txns == map[1 := Txn(1, Committed, SnapshotIsolation, {})] && s.mgr.active == {}
    ensures s.heap == map[A := Version(1, INVALID_TXN, A, [])]
  {
    var o1, o2, o3 := OpBegin(SnapshotIsolation), OpInsert(1, A, 0, []), OpCommit(1);
    RunSnoc(START, [], o1);
    RunSnoc(START, [] + [o1], o2);
    RunSnoc(START, [] + [o1] + [o2], o3);
    ops := [] + [o1] + [o2] + [o3];
    s := Run(START, ops);
    assert s.mgr.active == {};
    assert s.mgr.txns == map[1 := Txn(1, Committed, SnapshotIsolation, {})];
  }

  /** Steps 2 and 3 begin; step 2 supersedes the row and commits. */
  lemma {:induction false} FirstUpdateCommitted() returns (ops: seq<Op>, s: State)
    ensures s == Run(START, ops)
    ensures s.mgr.next == 4 && s.mgr.txns == map[1 := Txn(1, Committed, SnapshotIsolation, {}),
                                               2 := Txn(2, Committed, SnapshotIsolation, {}),
                                               3 := Txn(3, Active, SnapshotIsolation, {2})] && s.mgr.active == {3}
    ensures s.heap == map[A := Version(1, 2, A, []), B := Version(2, INVALID_TXN, A, [])]
  {
    var ops0, s0 := OneRow();
    var o1, o2 := OpBegin(SnapshotIsolation), OpBegin(SnapshotIsolation);
    var o3, o4 := OpUpdate(2, A, B, 0, []), OpCommit(2);
    RunSnoc(START, ops0, o1);
    RunSnoc(START, ops0 + [o1], o2);
    RunSnoc(START, ops0 + [o1] + [o2], o3);
    RunSnoc(START, ops0 + [o1] + [o2] + [o3], o4);
    ops := ops0 + [o1] + [o2] + [o3] + [o4];
    s := Run(START, ops);
    var t1 := Begin(s0.mgr, SnapshotIsolation);
    var t2 := Begin(t1, SnapshotIsolation);
    assert t1.active == {2} && t2.active == {2, 3};
    assert s.mgr == Finish(t2, 2, Committed);
  }

  /**
   Two transactions with the same snapshot update the same version. Each sees it, but the
   second overwrites the mark of the first, which has committed: a later reader then sees
   two versions of the row.
   */
  lemma {:induction false} OverwrittenMarkShowsTwoVersions() returns (ops: seq<Op>)
    ensures var s := Run(START, ops);
            && SnapshotReader(s.mgr, 4) && Sees(s, 4, B) && Sees(s, 4, C)
            && s.heap[B].row == s.heap[C].row && B != C
  {
    var ops0, s0 := FirstUpdateCommitted();
    var o5, o6, o7 := OpUpdate(3, A, C, 0, []), OpCommit(3), OpBegin(SnapshotIsolation);
    RunSnoc(START, ops0, o5);
    RunSnoc(START, ops0 + [o5], o6);
    RunSnoc(START, ops0 + [o5] + [o6], o7);
    ops := ops0 + [o5] + [o6] + [o7];
  }

  /** Step 2 supersedes the row and aborts. */
  lemma {:induction false} UpdateAborted() returns (ops: seq<Op>, s: State)
    ensures s == Run(START, ops) && AllowedRun(START, ops)
    ensures s.mgr.next == 3 && s.mgr.txns == map[1 := Txn(1, Committed, SnapshotIsolation, {}),
                                               2 := Txn(2, Aborted, SnapshotIsolation, {})] && s.mgr.active == {}
    ensures s.heap == map[A := Version(1, 2, A, []), B := Version(2, INVALID_TXN, A, [])]
  {
    var ops0, s0 := OneRow();
    var o1, o2, o3 := OpBegin(SnapshotIsolation), OpUpdate(2, A, B, 0, []), OpAbort(2);
    RunSnoc(START, ops0, o1);
    RunSnoc(START, ops0 + [o1], o2);
    RunSnoc(START, ops0 + [o1] + [o2], o3);
    ops := ops0 + [o1] + [o2] + [o3];
    s := Run(START, ops);
    assert s.mgr.active == {};
  }

  /**
   A transaction that has aborted still counts its own writes as visible, so its later reads
   can show two versions of a row although every step respects the discipline.
   */
  lemma {:induction false} AbortedReaderSeesTwoVersions() returns (ops: seq<Op>)
    ensures AllowedRun(START, ops)
    ensures var s := Run(START, ops);
            && HasState(s.mgr, 2, Aborted) && Sees(s, 2, A) && Sees(s, 2, B)
            && s.heap[A].row == s.heap[B].row && A != B
  {
    var ops0, s0 := UpdateAborted();
    var o4, o5 := OpBegin(SnapshotIsolation), OpUpdate(3, A, C, 0, []);
    RunSnoc(START, ops0, o4);
    RunSnoc(START, ops0 + [o4], o5);
    ops := ops0 + [o4] + [o5];
  }
}
