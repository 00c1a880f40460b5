/** Snapshot isolation over every interleaving: one visible version per row, and views that never change. */
module MvccIsolation {
  import opened Types
  import opened Mvcc

  /* ---------- The line of versions of a row ---------- */

  predicate NoDup(s: seq<RecordId>) {
    forall i, j :: 0 <= i < j < |s| ==> s[i] != s[j]
  }

  /**
   Version `b` replaced version `a`: the creator of `b` superseded `a`, the creator of `a`
   had committed by then unless it is the same transaction, and every snapshot that
   includes the creator of `b` includes the creator of `a`.
   */
  ghost predicate Link(s: State, a: RecordId, b: RecordId) {
    && a in s.heap && b in s.heap
    && s.heap[a].xmax == s.heap[b].xmin
    && (HasState(s.mgr, s.heap[a].xmin, Committed) || s.heap[a].xmin == s.heap[b].xmin)
    && forall x :: x in s.mgr.txns && s.mgr.txns[x].level == SnapshotIsolation &&
                   InSnapshot(s.mgr, s.heap[b].xmin, s.mgr.txns[x]) ==>
                     InSnapshot(s.mgr, s.heap[a].xmin, s.mgr.txns[x])
  }

  /** A version in the line of its row; its creator has not aborted. */
  ghost predicate OnLine(s: State, row: RecordId, rid: RecordId) {
    && rid in s.heap && s.heap[rid].row == row
    && s.heap[rid].xmin in s.mgr.txns && !HasState(s.mgr, s.heap[rid].xmin, Aborted)
  }

  ghost predicate LineInv(s: State, row: RecordId, line: seq<RecordId>) {
    && NoDup(line)
    && (forall i :: 0 <= i < |line| ==> OnLine(s, row, line[i]))
    && (forall i :: 0 <= i < |line| - 1 ==> Link(s, line[i], line[i + 1]))
  }

  /** The scan order lists every record once, and all marks belong to transactions that have begun. */
  ghost predicate HeapInv(s: State) {
    && NoDup(s.order)
    && (forall rid :: rid in s.order <==> rid in s.heap)
    && (forall rid :: rid in s.heap ==> s.heap[rid].xmin in s.mgr.txns)
    && (forall rid :: rid in s.heap ==> s.heap[rid].xmax == INVALID_TXN || s.heap[rid].xmax in s.mgr.txns)
  }

  /** Every version whose creator has not aborted is in the line of its row. */
  ghost predicate RowsInv(s: State) {
    && (forall row :: row in s.lines ==> row in s.heap && s.heap[row].row == row)
    && (forall rid :: rid in s.heap ==> s.heap[rid].row in s.lines)
    && (forall rid :: rid in s.heap && !HasState(s.mgr, s.heap[rid].xmin, Aborted) ==> rid in s.lines[s.heap[rid].row])
  }

  ghost predicate LinesInv(s: State) {
    forall row :: row in s.lines ==> LineInv(s, row, s.lines[row])
  }

  ghost predicate Inv(s: State) {
    ManagerInv(s.mgr) && HeapInv(s) && RowsInv(s) && LinesInv(s)
  }

  const START := State(NO_TXNS, map[], [], map[])

  lemma {:induction false} StartInv()
    ensures Inv(START)
  {
  }

  /* ---------- Every allowed step keeps the lines ---------- */

  /** A link between two versions survives every step that does not touch them. */
  lemma {:induction false} LinkStep(s: State, op: Op, a: RecordId, b: RecordId)
    requires ManagerInv(s.mgr) && Link(s, a, b)
    requires var h := Step(s, op).heap; a in h && b in h && h[a] == s.heap[a] && h[b].xmin == s.heap[b].xmin
    requires s.heap[a].xmin in s.mgr.txns && s.heap[b].xmin in s.mgr.txns
    ensures Link(Step(s, op), a, b)
  {
    var s2 := Step(s, op);
    var ca, cb := s.heap[a].xmin, s.heap[b].xmin;
    forall x | x in s2.mgr.txns && s2.mgr.txns[x].level == SnapshotIsolation && InSnapshot(s2.mgr, cb, s2.mgr.txns[x])
      ensures InSnapshot(s2.mgr, ca, s2.mgr.txns[x])
    {
      if x in s.mgr.txns {
        assert s.mgr.txns[x].level == SnapshotIsolation;
        SnapshotFixed(s, op, x, ca);
        SnapshotFixed(s, op, x, cb);
      }
    }
  }

  lemma {:induction false} OnLineStep(s: State, op: Op, row: RecordId, rid: RecordId)
    requires ManagerInv(s.mgr) && OnLine(s, row, rid)
    requires var h := Step(s, op).heap; rid in h && h[rid].xmin == s.heap[rid].xmin && h[rid].row == s.heap[rid].row
    requires op.OpAbort? ==> op.t != s.heap[rid].xmin
    ensures OnLine(Step(s, op), row, rid)
  {
  }

  /** A line whose versions a step leaves alone, apart from superseding the last one. */
  lemma {:induction false} LineStep(s: State, op: Op, row: RecordId, line: seq<RecordId>)
    requires ManagerInv(s.mgr) && LineInv(s, row, line)
    requires var h := Step(s, op).heap;
             forall i :: 0 <= i < |line| ==>
               && line[i] in h && h[line[i]].xmin == s.heap[line[i]].xmin && h[line[i]].row == s.heap[line[i]].row
               && (i < |line| - 1 ==> h[line[i]] == s.heap[line[i]])
    requires op.OpAbort? ==> forall i :: 0 <= i < |line| ==> op.t != s.heap[line[i]].xmin
    ensures LineInv(Step(s, op), row, line)
  {
    forall i | 0 <= i < |line| ensures OnLine(Step(s, op), row, line[i]) {
      OnLineStep(s, op, row, line[i]);
    }
    forall i | 0 <= i < |line| - 1 ensures Link(Step(s, op), line[i], line[i + 1]) {
      assert OnLine(s, row, line[i]) && OnLine(s, row, line[i + 1]);
      LinkStep(s, op, line[i], line[i + 1]);
    }
  }

  /** The scan order and the marks stay in order. */
  lemma {:induction false} HeapStep(s: State, op: Op)
    requires ManagerInv(s.mgr) && HeapInv(s) && Allowed(s, op)
    ensures HeapInv(Step(s, op))
  {
    var s2 := Step(s, op);
    if op.OpInsert? || op.OpUpdate? {
      PutAtMembers(s.order, op.at, op.rid);
      assert s2.order == PutAt(s.order, op.at, op.rid);
    }
    MarksStep(s, op);
  }

  lemma {:induction false} MarksStep(s: State, op: Op)
    requires ManagerInv(s.mgr) && HeapInv(s) && Allowed(s, op)
    ensures var s2 := Step(s, op);
            forall rid :: rid in s2.heap ==>
              && s2.heap[rid].xmin in s2.mgr.txns
              && (s2.heap[rid].xmax == INVALID_TXN || s2.heap[rid].xmax in s2.mgr.txns)
  {
  }

  lemma {:induction false} BeginCommitInv(s: State, op: Op)
    requires Inv(s) && (op.OpBegin? || op.OpCommit?)
    ensures LinesInv(Step(s, op))
  {
    forall row | row in s.lines ensures LineInv(Step(s, op), row, s.lines[row]) {
      LineStep(s, op, row, s.lines[row]);
    }
  }

  lemma {:induction false} BeginCommitRows(s: State, op: Op)
    requires ManagerInv(s.mgr) && HeapInv(s) && RowsInv(s) && (op.OpBegin? || op.OpCommit?)
    ensures RowsInv(Step(s, op))
  {
  }

  /** From the first version of an active transaction on, a line holds only versions of that transaction. */
  lemma {:induction false} ActiveSuffix(s: State, row: RecordId, line: seq<RecordId>, i: nat, j: nat)
    requires LineInv(s, row, line) && i <= j < |line|
    requires HasState(s.mgr, s.heap[line[i]].xmin, Active)
    ensures s.heap[line[j]].xmin == s.heap[line[i]].xmin
    decreases j - i
  {
    assert OnLine(s, row, line[i]) && OnLine(s, row, line[j]);
    if i < j {
      ActiveSuffix(s, row, line, i, j - 1);
      assert Link(s, line[j - 1], line[j]);
    }
  }

  lemma {:induction false} WithoutTxnAll(s: State, line: seq<RecordId>, t: TxnId)
    requires forall i :: 0 <= i < |line| ==> line[i] in s.heap && s.heap[line[i]].xmin == t
    ensures WithoutTxn(s, line, t) == []
  {
    if |line| > 0 {
      WithoutTxnAll(s, line[1..], t);
    }
  }

  /** The versions of an aborting transaction are cut off the end of a line. */
  lemma {:induction false} WithoutTxnIsPrefix(s: State, row: RecordId, line: seq<RecordId>, t: TxnId) returns (k: nat)
    requires LineInv(s, row, line) && HasState(s.mgr, t, Active)
    ensures k <= |line| && WithoutTxn(s, line, t) == line[..k]
    ensures forall i :: 0 <= i < |line| ==> (i < k <==> s.heap[line[i]].xmin != t)
    decreases |line|
  {
    if |line| == 0 {
      k := 0;
    } else {
      assert OnLine(s, row, line[0]);
      if s.heap[line[0]].xmin == t {
        k := 0;
        forall i | 0 <= i < |line| ensures line[i] in s.heap && s.heap[line[i]].xmin == t {
          assert OnLine(s, row, line[i]);
          ActiveSuffix(s, row, line, 0, i);
        }
        WithoutTxnAll(s, line, t);
      } else {
        TailLine(s, row, line);
        k := WithoutTxnIsPrefix(s, row, line[1..], t);
        k := k + 1;
        forall i | 0 <= i < |line| ensures i < k <==> s.heap[line[i]].xmin != t {
          assert i > 0 ==> line[i] == line[1..][i - 1];
        }
      }
    }
  }

  lemma {:induction false} PrefixLine(s: State, row: RecordId, line: seq<RecordId>, k: nat)
    requires LineInv(s, row, line) && k <= |line|
    ensures LineInv(s, row, line[..k])
  {
    var cut := line[..k];
    forall i | 0 <= i < |cut| - 1 ensures Link(s, cut[i], cut[i + 1]) {
      assert cut[i] == line[i] && cut[i + 1] == line[i + 1];
    }
  }

  lemma {:induction false} TailLine(s: State, row: RecordId, line: seq<RecordId>)
    requires LineInv(s, row, line) && |line| > 0
    ensures LineInv(s, row, line[1..])
  {
    var tl := line[1..];
    forall i | 0 <= i < |tl| ensures OnLine(s, row, tl[i]) {
      assert tl[i] == line[i + 1];
    }
    forall i | 0 <= i < |tl| - 1 ensures Link(s, tl[i], tl[i + 1]) {
      assert tl[i] == line[i + 1] && tl[i + 1] == line[i + 2];
    }
  }

  lemma {:induction false} AbortInv(s: State, op: Op)
    requires Inv(s) && op.OpAbort?
    ensures RowsInv(Step(s, op)) && LinesInv(Step(s, op))
  {
    if HasState(s.mgr, op.t, Active) {
      var s2 := Step(s, op);
      forall row | row in s.lines ensures LineInv(s2, row, s2.lines[row]) {
        AbortLine(s, op, row);
      }
      AbortRows(s, op);
    }
  }

  lemma {:induction false} AbortRows(s: State, op: Op)
    requires Inv(s) && op.OpAbort? && HasState(s.mgr, op.t, Active)
    ensures RowsInv(Step(s, op))
  {
    var s2 := Step(s, op);
    forall rid | rid in s2.heap && !HasState(s2.mgr, s2.heap[rid].xmin, Aborted)
      ensures rid in s2.lines[s2.heap[rid].row]
    {
      var row := s.heap[rid].row;
      assert rid in s.lines[row];
      AbortLine(s, op, row);
    }
  }

  lemma {:induction false} AbortLine(s: State, op: Op, row: RecordId)
    requires Inv(s) && op.OpAbort? && HasState(s.mgr, op.t, Active) && row in s.lines
    ensures LineInv(Step(s, op), row, Step(s, op).lines[row])
    ensures forall rid :: rid in s.lines[row] ==> rid in s.heap
    ensures forall rid :: rid in s.lines[row] && s.heap[rid].xmin != op.t ==> rid in Step(s, op).lines[row]
  {
    var line := s.lines[row];
    assert forall i :: 0 <= i < |line| ==> OnLine(s, row, line[i]);
    var k := WithoutTxnIsPrefix(s, row, line, op.t);
    CutLine(s, op, row, line, k);
    forall rid | rid in line && s.heap[rid].xmin != op.t ensures rid in line[..k] {
      var i :| 0 <= i < |line| && line[i] == rid;
      assert line[..k][i] == rid;
    }
  }

  /** The versions in front of those of an aborting transaction stay a line. */
  lemma {:induction false} CutLine(s: State, op: Op, row: RecordId, line: seq<RecordId>, k: nat)
    requires ManagerInv(s.mgr) && LineInv(s, row, line) && op.OpAbort? && k <= |line|
    requires forall i :: 0 <= i < k ==> line[i] in s.heap && s.heap[line[i]].xmin != op.t
    ensures LineInv(Step(s, op), row, line[..k])
  {
    PrefixLine(s, row, line, k);
    var cut := line[..k];
    assert forall i :: 0 <= i < |cut| ==> OnLine(s, row, cut[i]);
    LineStep(s, op, row, cut);
  }

  lemma {:induction false} PutAtMembers(order: seq<RecordId>, at: nat, rid: RecordId)
    requires NoDup(order) && rid !in order
    ensures NoDup(PutAt(order, at, rid))
    ensures forall x :: x in PutAt(order, at, rid) <==> x == rid || x in order
  {
    var k := if at <= |order| then at else |order|;
    assert PutAt(order, at, rid) == order[..k] + [rid] + order[k..];
    assert order == order[..k] + order[k..];
    PutInNoDup(order[..k], order[k..], rid);
  }

  lemma {:induction false} PutInNoDup(a: seq<RecordId>, b: seq<RecordId>, rid: RecordId)
    requires NoDup(a + b) && rid !in a + b
    ensures NoDup(a + [rid] + b)
  {
    var all, o := a + b, a + [rid] + b;
    forall i, j | 0 <= i < j < |o| ensures o[i] != o[j] {
      if i != |a| && j != |a| {
        assert o[i] == all[if i < |a| then i else i - 1] && o[j] == all[if j < |a| then j else j - 1];
      } else {
        assert i == |a| ==> o[j] in b;
        assert j == |a| ==> o[i] in a;
      }
    }
  }

  lemma {:induction false} InsertInv(s: State, op: Op)
    requires Inv(s) && op.OpInsert? && Allowed(s, op)
    ensures RowsInv(Step(s, op)) && LinesInv(Step(s, op))
  {
    var s2 := Step(s, op);
    forall row | row in s2.lines ensures LineInv(s2, row, s2.lines[row]) {
      if row != op.rid {
        var line := s.lines[row];
        assert forall i :: 0 <= i < |line| ==> OnLine(s, row, line[i]);
        LineStep(s, op, row, line);
      }
    }
  }

  /** Every version but the last of a line is superseded by a transaction that has not aborted. */
  lemma {:induction false} SupersededForGood(s: State, row: RecordId, line: seq<RecordId>, i: nat)
    requires LineInv(s, row, line) && i < |line| - 1
    ensures line[i] in s.heap
    ensures s.heap[line[i]].xmax in s.mgr.txns && !HasState(s.mgr, s.heap[line[i]].xmax, Aborted)
  {
    assert Link(s, line[i], line[i + 1]);
    assert OnLine(s, row, line[i + 1]);
  }

  /** A version that may be superseded is the last one in the line of its row. */
  lemma {:induction false} StampsLast(s: State, t: TxnId, prev: RecordId)
    requires Inv(s) && MayStamp(s, t, prev)
    ensures var row := s.heap[prev].row;
            && row in s.lines && |s.lines[row]| > 0 && s.lines[row][|s.lines[row]| - 1] == prev
            && (HasState(s.mgr, s.heap[prev].xmin, Committed) || s.heap[prev].xmin == t)
  {
    var row := s.heap[prev].row;
    var line := s.lines[row];
    assert prev in line;
    var i :| 0 <= i < |line| && line[i] == prev;
    if i < |line| - 1 {
      SupersededForGood(s, row, line, i);
    }
  }

  /** No version before the last of any line may be superseded. */
  lemma {:induction false} StampsNoEarlier(s: State, t: TxnId, prev: RecordId, row: RecordId, i: nat)
    requires Inv(s) && MayStamp(s, t, prev) && row in s.lines && i < |s.lines[row]| - 1
    ensures s.lines[row][i] != prev
  {
    StampsLast(s, t, prev);
    assert OnLine(s, row, s.lines[row][i]);
  }

  lemma {:induction false} StampedLine(s: State, op: Op, row: RecordId, line: seq<RecordId>)
    requires ManagerInv(s.mgr) && LineInv(s, row, line) && (op.OpDelete? || op.OpUpdate?) && Allowed(s, op)
    requires forall i :: 0 <= i < |line| - 1 ==> line[i] != op.prev
    ensures LineInv(Step(s, op), row, line)
  {
    assert forall i :: 0 <= i < |line| ==> OnLine(s, row, line[i]);
    LineStep(s, op, row, line);
  }

  /** Superseding the last version of one line keeps all lines. */
  lemma {:induction false} LinesAfterStamp(s: State, op: Op, row: RecordId)
    requires Inv(s) && (op.OpDelete? || op.OpUpdate?) && Allowed(s, op) && row in s.lines
    ensures LineInv(Step(s, op), row, s.lines[row])
  {
    var line := s.lines[row];
    forall i | 0 <= i < |line| - 1 ensures line[i] != op.prev {
      StampsNoEarlier(s, op.t, op.prev, row, i);
    }
    StampedLine(s, op, row, line);
  }

  lemma {:induction false} DeleteInv(s: State, op: Op)
    requires Inv(s) && op.OpDelete? && Allowed(s, op)
    ensures LinesInv(Step(s, op))
  {
    forall row | row in s.lines ensures LineInv(Step(s, op), row, s.lines[row]) {
      LinesAfterStamp(s, op, row);
    }
  }

  lemma {:induction false} LongerLine(s: State, row: RecordId, line: seq<RecordId>, rid: RecordId)
    requires LineInv(s, row, line) && OnLine(s, row, rid) && rid !in line
    requires |line| > 0 ==> Link(s, line[|line| - 1], rid)
    ensures LineInv(s, row, line + [rid])
  {
    var longer := line + [rid];
    forall i | 0 <= i < |longer| - 1 ensures Link(s, longer[i], longer[i + 1]) {
      if i < |line| - 1 {
        assert Link(s, line[i], line[i + 1]);
      }
    }
  }

  lemma {:induction false} ExtendedLine(s: State, op: Op, row: RecordId)
    requires Inv(s) && op.OpUpdate? && Allowed(s, op) && row == s.heap[op.prev].row
    ensures row in s.lines && LineInv(Step(s, op), row, s.lines[row] + [op.rid])
  {
    StampsLast(s, op.t, op.prev);
    LinesAfterStamp(s, op, row);
    NewLink(s, op);
    NewOnLine(s, op, row);
    LongerLine(Step(s, op), row, s.lines[row], op.rid);
  }

  lemma {:induction false} NewOnLine(s: State, op: Op, row: RecordId)
    requires Inv(s) && op.OpUpdate? && Allowed(s, op) && row == s.heap[op.prev].row && row in s.lines
    ensures op.rid !in s.lines[row] && OnLine(Step(s, op), row, op.rid)
  {
    var line := s.lines[row];
    assert forall i :: 0 <= i < |line| ==> OnLine(s, row, line[i]);
  }

  /** The new version is linked to the one it replaces. */
  lemma {:induction false} NewLink(s: State, op: Op)
    requires Inv(s) && op.OpUpdate? && Allowed(s, op)
    ensures Link(Step(s, op), op.prev, op.rid)
  {
    StampsLast(s, op.t, op.prev);
    var s2 := Step(s, op);
    forall x | x in s2.mgr.txns && s2.mgr.txns[x].level == SnapshotIsolation && InSnapshot(s2.mgr, op.t, s2.mgr.txns[x])
      ensures InSnapshot(s2.mgr, s.heap[op.prev].xmin, s2.mgr.txns[x])
    {
      assert x == op.t;
      VisibleIff(s.mgr, s.heap[op.prev], s.mgr.txns[x]);
    }
  }

  lemma {:induction false} UpdateInv(s: State, op: Op)
    requires Inv(s) && op.OpUpdate? && Allowed(s, op)
    ensures LinesInv(Step(s, op))
  {
    var s2 := Step(s, op);
    var r := s.heap[op.prev].row;
    ExtendedLine(s, op, r);
    forall row | row in s2.lines ensures LineInv(s2, row, s2.lines[row]) {
      if row != r {
        LinesAfterStamp(s, op, row);
      }
    }
  }

  lemma {:induction false} StampRows(s: State, op: Op)
    requires RowsInv(s) && (op.OpDelete? || op.OpUpdate?) && Allowed(s, op)
    ensures RowsInv(Step(s, op))
  {
  }

  /** Every step the discipline allows keeps the invariant. */
  lemma {:induction false} StepInv(s: State, op: Op)
    requires Inv(s) && Allowed(s, op)
    ensures Inv(Step(s, op))
  {
    ManagerStep(s, op);
    HeapStep(s, op);
    match op {
      case OpBegin(_) =>
        BeginCommitInv(s, op);
        BeginCommitRows(s, op);
      case OpCommit(_) =>
        BeginCommitInv(s, op);
        BeginCommitRows(s, op);
      case OpAbort(_) => AbortInv(s, op);
      case OpInsert(_, _, _, _) => InsertInv(s, op);
      case OpDelete(_, _) =>
        DeleteInv(s, op);
        StampRows(s, op);
      case OpUpdate(_, _, _, _, _) =>
        UpdateInv(s, op);
        StampRows(s, op);
    }
  }

  lemma {:induction false} RunInv(s: State, ops: seq<Op>)
    requires Inv(s) && AllowedRun(s, ops)
    ensures Inv(Run(s, ops))
    decreases |ops|
  {
    if |ops| > 0 {
      RunInv(s, ops[..|ops| - 1]);
      StepInv(Run(s, ops[..|ops| - 1]), ops[|ops| - 1]);
    }
  }

  /* ---------- One version of each row ---------- */

  /** A reader that can rely on its view: a snapshot transaction that has not aborted. */
  predicate SnapshotReader(m: Manager, r: TxnId) {
    r in m.txns && m.txns[r].level == SnapshotIsolation && m.txns[r].state != Aborted
  }

  predicate Sees(s: State, r: TxnId, rid: RecordId)
    requires r in s.mgr.txns
  {
    rid in s.heap && IsVisible(s.mgr, s.heap[rid], s.mgr.txns[r])
  }

  /** Along a line, a snapshot that includes a version's creator includes the creators before it. */
  lemma {:induction false} SnapshotIsPrefix(s: State, row: RecordId, line: seq<RecordId>, r: TxnId, i: nat, j: nat)
    requires LineInv(s, row, line) && r in s.mgr.txns && s.mgr.txns[r].level == SnapshotIsolation
    requires i <= j < |line|
    requires line[j] in s.heap && InSnapshot(s.mgr, s.heap[line[j]].xmin, s.mgr.txns[r])
    ensures line[i] in s.heap && InSnapshot(s.mgr, s.heap[line[i]].xmin, s.mgr.txns[r])
    decreases j - i
  {
    if i < j {
      assert Link(s, line[j - 1], line[j]);
      SnapshotIsPrefix(s, row, line, r, i, j - 1);
    }
  }

  /** A version the reader sees is on the line of its row. */
  lemma {:induction false} SeenIsOnLine(s: State, r: TxnId, rid: RecordId) returns (i: nat)
    requires Inv(s) && SnapshotReader(s.mgr, r) && Sees(s, r, rid)
    ensures var row := s.heap[rid].row; row in s.lines && i < |s.lines[row]| && s.lines[row][i] == rid
    ensures InSnapshot(s.mgr, s.heap[rid].xmin, s.mgr.txns[r]) && !InSnapshot(s.mgr, s.heap[rid].xmax, s.mgr.txns[r])
  {
    VisibleIff(s.mgr, s.heap[rid], s.mgr.txns[r]);
    var line := s.lines[s.heap[rid].row];
    assert rid in line;
    i :| 0 <= i < |line| && line[i] == rid;
  }

  lemma {:induction false} EarlierIsHidden(s: State, row: RecordId, line: seq<RecordId>, r: TxnId, i: nat, j: nat)
    requires LineInv(s, row, line) && r in s.mgr.txns && s.mgr.txns[r].level == SnapshotIsolation
    requires i < j < |line|
    requires line[j] in s.heap && InSnapshot(s.mgr, s.heap[line[j]].xmin, s.mgr.txns[r])
    ensures line[i] in s.heap && InSnapshot(s.mgr, s.heap[line[i]].xmax, s.mgr.txns[r])
  {
    SnapshotIsPrefix(s, row, line, r, i + 1, j);
    assert Link(s, line[i], line[i + 1]);
  }

  lemma {:induction false} OneVersionSeen(s: State, r: TxnId, a: RecordId, b: RecordId)
    requires Inv(s) && SnapshotReader(s.mgr, r)
    requires Sees(s, r, a) && Sees(s, r, b) && s.heap[a].row == s.heap[b].row
    ensures a == b
  {
    var i := SeenIsOnLine(s, r, a);
    var j := SeenIsOnLine(s, r, b);
    var row := s.heap[a].row;
    if i < j {
      EarlierIsHidden(s, row, s.lines[row], r, i, j);
    } else if j < i {
      EarlierIsHidden(s, row, s.lines[row], r, j, i);
    }
  }

  /** In every interleaving that respects the discipline a snapshot reader sees at most one version of each row. */
  lemma {:induction false} AtMostOneVersion(ops: seq<Op>, r: TxnId, a: RecordId, b: RecordId)
    requires AllowedRun(START, ops)
    requires var s := Run(START, ops);
             SnapshotReader(s.mgr, r) && Sees(s, r, a) && Sees(s, r, b) && s.heap[a].row == s.heap[b].row
    ensures a == b
  {
    StartInv();
    RunInv(START, ops);
    OneVersionSeen(Run(START, ops), r, a, b);
  }

  /* ---------- Views that do not change ---------- */

  datatype Tuple = Tuple(rid: RecordId, data: Row)

  /** What a scan returns to a reader, in scan order. */
  function Scan(m: Manager, heap: map<RecordId, Version>, order: seq<RecordId>, reader: Txn): seq<Tuple> {
    if |order| == 0 then []
    else
      (if order[0] in heap && IsVisible(m, heap[order[0]], reader) then [Tuple(order[0], heap[order[0]].data)] else [])
      + Scan(m, heap, order[1..], reader)
  }

  function ScanVisible(s: State, r: TxnId): seq<Tuple>
    requires r in s.mgr.txns
  {
    Scan(s.mgr, s.heap, s.order, s.mgr.txns[r])
  }

  /** The transaction on whose behalf a step is made. */
  predicate ActsFor(op: Op, r: TxnId) {
    !op.OpBegin? && op.t == r
  }

  /** A step of someone else shows a reader the same version in the same place, or nothing as before. */
  lemma {:induction false} SeesSame(s: State, op: Op, r: TxnId, rid: RecordId)
    requires Inv(s) && Allowed(s, op) && SnapshotReader(s.mgr, r) && !ActsFor(op, r)
    ensures SnapshotReader(Step(s, op).mgr, r)
    ensures Sees(Step(s, op), r, rid) <==> Sees(s, r, rid)
    ensures Sees(s, r, rid) ==> Step(s, op).heap[rid].data == s.heap[rid].data
  {
    SnapshotFixed(s, op, r, INVALID_TXN);
    if rid in s.heap {
      StoredSeesSame(s, op, r, rid);
    } else if rid in Step(s, op).heap {
      VisibleIff(Step(s, op).mgr, Step(s, op).heap[rid], Step(s, op).mgr.txns[r]);
    }
  }

  /** The marks others may change are not ones the reader's snapshot knows. */
  lemma {:induction false} StoredSeesSame(s: State, op: Op, r: TxnId, rid: RecordId)
    requires ManagerInv(s.mgr) && Allowed(s, op) && SnapshotReader(s.mgr, r) && !ActsFor(op, r) && rid in s.heap
    ensures rid in Step(s, op).heap && Step(s, op).heap[rid].data == s.heap[rid].data && r in Step(s, op).mgr.txns
    ensures IsVisible(Step(s, op).mgr, Step(s, op).heap[rid], Step(s, op).mgr.txns[r]) <==> IsVisible(s.mgr, s.heap[rid], s.mgr.txns[r])
  {
    var s2 := Step(s, op);
    SnapshotFixed(s, op, r, s.heap[rid].xmin);
    SnapshotFixed(s, op, r, s.heap[rid].xmax);
    VisibleIff(s.mgr, s.heap[rid], s.mgr.txns[r]);
    VisibleIff(s2.mgr, s2.heap[rid], s2.mgr.txns[r]);
  }

  lemma {:induction false} ScanSame(m: Manager, h: map<RecordId, Version>, t: Txn, m2: Manager, h2: map<RecordId, Version>, t2: Txn, order: seq<RecordId>)
    requires forall rid :: rid in order ==>
               ((rid in h2 && IsVisible(m2, h2[rid], t2)) <==> (rid in h && IsVisible(m, h[rid], t)))
    requires forall rid :: rid in order && rid in h && IsVisible(m, h[rid], t) ==> rid in h2 && h2[rid].data == h[rid].data
    ensures Scan(m2, h2, order, t2) == Scan(m, h, order, t)
  {
    if |order| > 0 {
      assert order[0] in order;
      ScanSame(m, h, t, m2, h2, t2, order[1..]);
    }
  }

  lemma {:induction false} ScanAppend(m: Manager, h: map<RecordId, Version>, a: seq<RecordId>, b: seq<RecordId>, t: Txn)
    ensures Scan(m, h, a + b, t) == Scan(m, h, a, t) + Scan(m, h, b, t)
  {
    if |a| == 0 {
      assert a + b == b;
    } else {
      assert (a + b)[1..] == a[1..] + b;
      ScanAppend(m, h, a[1..], b, t);
    }
  }

  /** A new record the reader does not see makes no difference, wherever it is placed. */
  lemma {:induction false} ScanSkipsUnseen(m: Manager, h: map<RecordId, Version>, order: seq<RecordId>, at: nat, rid: RecordId, t: Txn)
    requires !(rid in h && IsVisible(m, h[rid], t))
    ensures Scan(m, h, PutAt(order, at, rid), t) == Scan(m, h, order, t)
  {
    var k := if at <= |order| then at else |order|;
    assert PutAt(order, at, rid) == order[..k] + ([rid] + order[k..]);
    assert order == order[..k] + order[k..];
    ScanAppend(m, h, order[..k], [rid] + order[k..], t);
    ScanAppend(m, h, order[..k], order[k..], t);
    assert ([rid] + order[k..])[1..] == order[k..];
  }

  /** No allowed step of another transaction changes what a snapshot reader's scan returns. */
  lemma {:induction false} ViewKept(s: State, op: Op, r: TxnId)
    requires Inv(s) && Allowed(s, op) && SnapshotReader(s.mgr, r) && !ActsFor(op, r)
    ensures SnapshotReader(Step(s, op).mgr, r)
    ensures ScanVisible(Step(s, op), r) == ScanVisible(s, r)
  {
    var s2 := Step(s, op);
    SeesSame(s, op, r, RecordId(0, 0));
    forall rid ensures Sees(s2, r, rid) <==> Sees(s, r, rid)
               ensures Sees(s, r, rid) ==> s2.heap[rid].data == s.heap[rid].data {
      SeesSame(s, op, r, rid);
    }
    ScanSame(s.mgr, s.heap, s.mgr.txns[r], s2.mgr, s2.heap, s2.mgr.txns[r], s.order);
    if op.OpInsert? || op.OpUpdate? {
      assert !Sees(s, r, op.rid);
      ScanSkipsUnseen(s2.mgr, s2.heap, s.order, op.at, op.rid, s2.mgr.txns[r]);
    }
  }

  /** Whatever the others do, as long as they respect the discipline, a snapshot reader's scan stays the same. */
  lemma {:induction false} ViewStable(s: State, ops: seq<Op>, r: TxnId)
    requires Inv(s) && AllowedRun(s, ops) && SnapshotReader(s.mgr, r)
    requires forall i :: 0 <= i < |ops| ==> !ActsFor(ops[i], r)
    ensures SnapshotReader(Run(s, ops).mgr, r)
    ensures ScanVisible(Run(s, ops), r) == ScanVisible(s, r)
    decreases |ops|
  {
    if |ops| > 0 {
      var init := ops[..|ops| - 1];
      ViewStable(s, init, r);
      RunInv(s, init);
      ViewKept(Run(s, init), ops[|ops| - 1], r);
    }
  }
}
