/**
 Multi-version concurrency control: the transaction table with its snapshots, the
 visibility rule, and the store of row versions, as a step system.

 A version also carries the identity of its logical row, and the state keeps for every row
 the line of its versions whose creators have not aborted. Both are history that the
 statements below speak about; no operation's outcome depends on them.
 */
module Mvcc {
  import opened Types

  type TxnId = nat

  const INVALID_TXN: TxnId := 0

  datatype TxnState = Active | Committed | Aborted
  datatype Isolation = ReadCommitted | SnapshotIsolation
  datatype Txn = Txn(id: TxnId, state: TxnState, level: Isolation, activeAtStart: set<TxnId>)

  /** The transaction manager: the id counter, all transactions ever begun, and those still active. */
  datatype Manager = Manager(next: TxnId, txns: map<TxnId, Txn>, active: set<TxnId>)

  /** The value a version holds; its layout does not matter here. */
  type Row = seq<int>

  datatype Version = Version(xmin: TxnId, xmax: TxnId, row: RecordId, data: Row)

  datatype State = State(
    mgr: Manager,
    heap: map<RecordId, Version>,
    order: seq<RecordId>,
    lines: map<RecordId, seq<RecordId>>)

  /* ---------- Transactions ---------- */

  const NO_TXNS := Manager(1, map[], {})

  function Begin(m: Manager, level: Isolation): Manager {
    Manager(m.next + 1, m.txns[m.next := Txn(m.next, Active, level, m.active)], m.active + {m.next})
  }

  /** Ends a transaction; nothing happens unless it is active. */
  function Finish(m: Manager, t: TxnId, outcome: TxnState): Manager {
    if t in m.txns && m.txns[t].state == Active then
      Manager(m.next, m.txns[t := m.txns[t].(state := outcome)], m.active - {t})
    else m
  }

  predicate HasState(m: Manager, t: TxnId, st: TxnState) {
    t in m.txns && m.txns[t].state == st
  }

  /* ---------- Visibility ---------- */

  predicate CommittedAndVisibleTo(m: Manager, id: TxnId, reader: Txn) {
    && id != INVALID_TXN
    && HasState(m, id, Committed)
    && (reader.level == ReadCommitted || (id < reader.id && id !in reader.activeAtStart))
  }

  predicate IsVisible(m: Manager, v: Version, reader: Txn) {
    var createdBySelf := v.xmin == reader.id;
    var deletedBySelf := v.xmax == reader.id;
    if deletedBySelf then false
    else if !(createdBySelf || CommittedAndVisibleTo(m, v.xmin, reader)) then false
    else if v.xmax == INVALID_TXN then true
    else !CommittedAndVisibleTo(m, v.xmax, reader)
  }

  /** The writes of `id` belong to what the reader sees: its own, or those of its snapshot. */
  predicate InSnapshot(m: Manager, id: TxnId, reader: Txn) {
    id == reader.id || CommittedAndVisibleTo(m, id, reader)
  }

  lemma {:induction false} VisibleIff(m: Manager, v: Version, reader: Txn)
    requires reader.id != INVALID_TXN
    ensures IsVisible(m, v, reader) <==> InSnapshot(m, v.xmin, reader) && !InSnapshot(m, v.xmax, reader)
  {
  }

  /* ---------- The version store ---------- */

  /** Puts a new record into the scan order; the heap file may place it anywhere. */
  function PutAt(order: seq<RecordId>, at: nat, rid: RecordId): seq<RecordId> {
    if at <= |order| then order[..at] + [rid] + order[at..] else order + [rid]
  }

  function InsertVersion(s: State, t: TxnId, rid: RecordId, at: nat, data: Row): State {
    s.(heap := s.heap[rid := Version(t, INVALID_TXN, rid, data)],
       order := PutAt(s.order, at, rid),
       lines := s.lines[rid := [rid]])
  }

  /** Marks a version as superseded, overwriting whatever mark it had. */
  function DeleteVersion(s: State, t: TxnId, rid: RecordId): State {
    if rid in s.heap then s.(heap := s.heap[rid := s.heap[rid].(xmax := t)]) else s
  }

  /** Supersedes a version by a new one of the same row. */
  function UpdateVersion(s: State, t: TxnId, prev: RecordId, rid: RecordId, at: nat, data: Row): State {
    if prev in s.heap then
      var d := DeleteVersion(s, t, prev);
      var row := s.heap[prev].row;
      d.(heap := d.heap[rid := Version(t, INVALID_TXN, row, data)],
         order := PutAt(d.order, at, rid),
         lines := if row in d.lines then d.lines[row := d.lines[row] + [rid]] else d.lines)
    else s
  }

  /** The line of a row without the versions of one transaction. */
  function WithoutTxn(s: State, line: seq<RecordId>, t: TxnId): seq<RecordId> {
    if |line| == 0 then []
    else (if line[0] in s.heap && s.heap[line[0]].xmin == t then [] else [line[0]]) + WithoutTxn(s, line[1..], t)
  }

  /* ---------- Steps ---------- */

  datatype Op =
    | OpBegin(level: Isolation)
    | OpCommit(t: TxnId)
    | OpAbort(t: TxnId)
    | OpInsert(t: TxnId, rid: RecordId, at: nat, data: Row)
    | OpDelete(t: TxnId, prev: RecordId)
    | OpUpdate(t: TxnId, prev: RecordId, rid: RecordId, at: nat, data: Row)

  function Step(s: State, op: Op): State {
    match op
    case OpBegin(level) => s.(mgr := Begin(s.mgr, level))
    case OpCommit(t) => s.(mgr := Finish(s.mgr, t, Committed))
    case OpAbort(t) =>
      s.(mgr := Finish(s.mgr, t, Aborted),
         lines := if HasState(s.mgr, t, Active) then map r | r in s.lines :: WithoutTxn(s, s.lines[r], t) else s.lines)
    case OpInsert(t, rid, at, data) => InsertVersion(s, t, rid, at, data)
    case OpDelete(t, prev) => DeleteVersion(s, t, prev)
    case OpUpdate(t, prev, rid, at, data) => UpdateVersion(s, t, prev, rid, at, data)
  }

  /**
   What a client has to respect: writes are made by active transactions, new versions get
   record ids that are not in use, and only a version that its transaction sees, and that is
   not superseded (or only by an aborted transaction), is superseded.
   */
  predicate MayStamp(s: State, t: TxnId, prev: RecordId) {
    && HasState(s.mgr, t, Active)
    && prev in s.heap
    && IsVisible(s.mgr, s.heap[prev], s.mgr.txns[t])
    && (s.heap[prev].xmax == INVALID_TXN || HasState(s.mgr, s.heap[prev].xmax, Aborted))
  }

  predicate Allowed(s: State, op: Op) {
    match op
    case OpInsert(t, rid, _, _) => HasState(s.mgr, t, Active) && rid !in s.heap
    case OpDelete(t, prev) => MayStamp(s, t, prev)
    case OpUpdate(t, prev, rid, _, _) => MayStamp(s, t, prev) && rid !in s.heap
    case _ => true
  }

  /* ---------- Invariant of the transaction table ---------- */

  /** Ids are handed out in order, and a snapshot records everyone who was active at its start. */
  ghost predicate ManagerInv(m: Manager) {
    && m.next >= 1
    && (forall t :: t in m.txns <==> 1 <= t < m.next)
    && (forall t :: t in m.txns ==> m.txns[t].id == t)
    && (forall t :: t in m.active <==> HasState(m, t, Active))
    && (forall t: TxnId, x: TxnId :: t in m.txns && x < t && HasState(m, x, Active) ==> x in m.txns[t].activeAtStart)
    && (forall t, x :: t in m.txns && x in m.txns[t].activeAtStart ==> 1 <= x < t)
  }

  lemma {:induction false} BeginInv(m: Manager, level: Isolation)
    requires ManagerInv(m)
    ensures ManagerInv(Begin(m, level))
  {
  }

  lemma {:induction false} FinishInv(m: Manager, t: TxnId, outcome: TxnState)
    requires ManagerInv(m) && outcome != Active
    ensures ManagerInv(Finish(m, t, outcome))
  {
  }

  lemma {:induction false} ManagerStep(s: State, op: Op)
    requires ManagerInv(s.mgr)
    ensures ManagerInv(Step(s, op).mgr)
  {
    match op {
      case OpBegin(level) => BeginInv(s.mgr, level);
      case OpCommit(t) => FinishInv(s.mgr, t, Committed);
      case OpAbort(t) => FinishInv(s.mgr, t, Aborted);
      case _ =>
    }
  }

  /** No step changes who is in the snapshot of a transaction that has begun. */
  lemma {:induction false} SnapshotFixed(s: State, op: Op, r: TxnId, x: TxnId)
    requires ManagerInv(s.mgr) && r in s.mgr.txns && s.mgr.txns[r].level == SnapshotIsolation
    ensures r in Step(s, op).mgr.txns
    ensures var r2 := Step(s, op).mgr.txns[r];
            && r2.id == r && r2.level == SnapshotIsolation && r2.activeAtStart == s.mgr.txns[r].activeAtStart
            && (InSnapshot(Step(s, op).mgr, x, r2) <==> InSnapshot(s.mgr, x, s.mgr.txns[r]))
  {
    if op.OpCommit? && op.t == x && HasState(s.mgr, x, Active) && x < r {
      assert x in s.mgr.txns[r].activeAtStart;
    }
  }

  /* ---------- Runs ---------- */

  function Run(s: State, ops: seq<Op>): State
    decreases |ops|
  {
    if |ops| == 0 then s else Step(Run(s, ops[..|ops| - 1]), ops[|ops| - 1])
  }

  /** The client discipline is respected at every step. */
  predicate AllowedRun(s: State, ops: seq<Op>)
    decreases |ops|
  {
    |ops| > 0 ==>
      && AllowedRun(s, ops[..|ops| - 1])
      && Allowed(Run(s, ops[..|ops| - 1]), ops[|ops| - 1])
  }

  lemma {:induction false} RunManager(s: State, ops: seq<Op>)
    requires ManagerInv(s.mgr)
    ensures ManagerInv(Run(s, ops).mgr)
    decreases |ops|
  {
    if |ops| > 0 {
      RunManager(s, ops[..|ops| - 1]);
      ManagerStep(Run(s, ops[..|ops| - 1]), ops[|ops| - 1]);
    }
  }

  /**
   A snapshot reader counts another transaction as visible exactly when that transaction
   had committed before the reader began, whatever anyone does afterwards.
   */
  lemma {:induction false} SnapshotIsCommittedBeforeBegin(s: State, ops: seq<Op>, x: TxnId)
    requires ManagerInv(s.mgr)
    ensures var r := s.mgr.next;
            var end := Run(s.(mgr := Begin(s.mgr, SnapshotIsolation)), ops).mgr;
            && r in end.txns
            && (x != r ==> (CommittedAndVisibleTo(end, x, end.txns[r]) <==> HasState(s.mgr, x, Committed)))
    decreases |ops|
  {
    var r, b := s.mgr.next, s.(mgr := Begin(s.mgr, SnapshotIsolation));
    ManagerStep(s, OpBegin(SnapshotIsolation));
    SnapshotKept(b, ops, r, x);
  }

  lemma {:induction false} SnapshotKept(s: State, ops: seq<Op>, r: TxnId, x: TxnId)
    requires ManagerInv(s.mgr) && r in s.mgr.txns && s.mgr.txns[r].level == SnapshotIsolation
    ensures r in Run(s, ops).mgr.txns
    ensures var r2 := Run(s, ops).mgr.txns[r];
            && r2.id == r && r2.level == SnapshotIsolation
            && (InSnapshot(Run(s, ops).mgr, x, r2) <==> InSnapshot(s.mgr, x, s.mgr.txns[r]))
    decreases |ops|
  {
    if |ops| > 0 {
      SnapshotKept(s, ops[..|ops| - 1], r, x);
      RunManager(s, ops[..|ops| - 1]);
      SnapshotFixed(Run(s, ops[..|ops| - 1]), ops[|ops| - 1], r, x);
    }
  }
}
