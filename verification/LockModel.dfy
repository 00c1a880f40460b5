/** Row locks: who holds what, the lock requests as steps, and what every run of them keeps. */
module LockModel {
  import opened Types

  /** A transaction id; zero stands for "no transaction". */
  type TxnId = nat

  const NO_TXN: TxnId := 0

  datatype LockEntry = LockEntry(shared: set<TxnId>, exclusive: TxnId)

  /** The lock table, and for each transaction the rows it holds a lock on. */
  datatype Locks = Locks(table: map<RecordId, LockEntry>, held: map<TxnId, set<RecordId>>)

  const NO_LOCKS := Locks(map[], map[])

  datatype Outcome = Outcome(locks: Locks, status: Status)

  function EntryAt(l: Locks, rid: RecordId): LockEntry {
    if rid in l.table then l.table[rid] else LockEntry({}, NO_TXN)
  }

  function HeldBy(l: Locks, t: TxnId): set<RecordId> {
    if t in l.held then l.held[t] else {}
  }

  predicate HoldsShared(l: Locks, t: TxnId, rid: RecordId) {
    t in EntryAt(l, rid).shared
  }

  predicate HoldsExclusive(l: Locks, t: TxnId, rid: RecordId) {
    t != NO_TXN && EntryAt(l, rid).exclusive == t
  }

  predicate Holds(l: Locks, t: TxnId, rid: RecordId) {
    HoldsShared(l, t, rid) || HoldsExclusive(l, t, rid)
  }

  /* ---------- Requests ---------- */

  function Record(l: Locks, rid: RecordId, e: LockEntry, t: TxnId): Locks {
    Locks(l.table[rid := e], l.held[t := HeldBy(l, t) + {rid}])
  }

  function LockShared(l: Locks, t: TxnId, rid: RecordId): Outcome {
    var e := EntryAt(l, rid);
    if e.exclusive != NO_TXN && e.exclusive != t then Outcome(l.(table := l.table[rid := e]), Conflict)
    else Outcome(Record(l, rid, e.(shared := e.shared + {t}), t), Ok)
  }

  function LockExclusive(l: Locks, t: TxnId, rid: RecordId): Outcome {
    var e := EntryAt(l, rid);
    if e.exclusive != NO_TXN && e.exclusive != t then Outcome(l.(table := l.table[rid := e]), Conflict)
    else if e.shared <= {t} then Outcome(Record(l, rid, LockEntry({}, t), t), Ok)
    else Outcome(l.(table := l.table[rid := e]), Conflict)
  }

  function Unlock(l: Locks, t: TxnId, rid: RecordId): Outcome {
    if rid !in l.table then Outcome(l, NotFound)
    else
      var e := l.table[rid];
      var left := LockEntry(e.shared - {t}, if e.exclusive == t then NO_TXN else e.exclusive);
      Outcome(
        Locks(if left == LockEntry({}, NO_TXN) then l.table - {rid} else l.table[rid := left],
              if t in l.held then l.held[t := l.held[t] - {rid}] else l.held),
        if t in e.shared || e.exclusive == t then Ok else NotFound)
  }

  /** Forgets a transaction's own list of locks. */
  function Forget(l: Locks, t: TxnId): Locks {
    l.(held := l.held - {t})
  }

  datatype Op =
    | Shared(txn: TxnId, rid: RecordId)
    | Exclusive(txn: TxnId, rid: RecordId)
    | Release(txn: TxnId, rid: RecordId)

  function Step(l: Locks, op: Op): Outcome {
    match op
    case Shared(t, rid) => LockShared(l, t, rid)
    case Exclusive(t, rid) => LockExclusive(l, t, rid)
    case Release(t, rid) => Unlock(l, t, rid)
  }

  function Run(l: Locks, ops: seq<Op>): Locks
    decreases |ops|
  {
    if |ops| == 0 then l else Run(Step(l, ops[0]).locks, ops[1..])
  }

  /* ---------- What every run keeps ---------- */

  /** An exclusive holder is alone; an entry has a holder. */
  predicate EntryOk(e: LockEntry) {
    && NO_TXN !in e.shared
    && (e.exclusive != NO_TXN ==> e.shared <= {e.exclusive})
    && e != LockEntry({}, NO_TXN)
  }

  predicate TableOk(l: Locks) {
    forall rid :: rid in l.table ==> EntryOk(l.table[rid])
  }

  /** A transaction's list of locks is what the lock table says. */
  ghost predicate Agree(l: Locks) {
    forall t, rid :: rid in HeldBy(l, t) <==> Holds(l, t, rid)
  }

  ghost predicate Inv(l: Locks) {
    TableOk(l) && Agree(l)
  }

  /** How one request changes what is held. */
  lemma {:induction false} StepHolds(l: Locks, op: Op, t: TxnId, rid: RecordId)
    requires TableOk(l) && op.txn != NO_TXN
    ensures var o := Step(l, op);
            Holds(o.locks, t, rid) <==>
              if t != op.txn || rid != op.rid then Holds(l, t, rid)
              else if op.Release? then false
              else o.status == Ok || Holds(l, t, rid)
  {
    if rid in l.table {
      assert EntryOk(l.table[rid]);
    }
  }

  lemma {:induction false} StepTable(l: Locks, op: Op)
    requires TableOk(l) && op.txn != NO_TXN
    ensures TableOk(Step(l, op).locks)
  {
    if op.rid in l.table {
      assert EntryOk(l.table[op.rid]);
    }
    var m := Step(l, op).locks;
    forall rid | rid in m.table ensures EntryOk(m.table[rid]) {
    }
  }

  lemma {:induction false} StepHeld(l: Locks, op: Op, t: TxnId, rid: RecordId)
    requires Inv(l) && op.txn != NO_TXN
    ensures rid in HeldBy(Step(l, op).locks, t) <==> Holds(Step(l, op).locks, t, rid)
  {
    StepHolds(l, op, t, rid);
    assert rid in HeldBy(l, t) <==> Holds(l, t, rid);
    if op.Release? && op.rid !in l.table {
      assert !Holds(l, t, op.rid);
    }
  }

  /** Every request by a real transaction keeps exclusivity, agreement, and leaves no empty entry. */
  lemma {:induction false} StepInv(l: Locks, op: Op)
    requires Inv(l) && op.txn != NO_TXN
    ensures Inv(Step(l, op).locks)
  {
    StepTable(l, op);
    forall t, rid ensures rid in HeldBy(Step(l, op).locks, t) <==> Holds(Step(l, op).locks, t, rid) {
      StepHeld(l, op, t, rid);
    }
  }

  predicate ByTransactions(ops: seq<Op>) {
    forall i :: 0 <= i < |ops| ==> ops[i].txn != NO_TXN
  }

  lemma {:induction false} RunInv(l: Locks, ops: seq<Op>)
    requires Inv(l) && ByTransactions(ops)
    ensures Inv(Run(l, ops))
    decreases |ops|
  {
    if |ops| > 0 {
      StepInv(l, ops[0]);
      RunInv(Step(l, ops[0]).locks, ops[1..]);
    }
  }

  /** In every reachable state a row with an exclusive holder has no other holder of either kind. */
  lemma {:induction false} ExclusiveAlone(ops: seq<Op>, rid: RecordId, t: TxnId, u: TxnId)
    requires ByTransactions(ops)
    requires HoldsExclusive(Run(NO_LOCKS, ops), t, rid) && Holds(Run(NO_LOCKS, ops), u, rid)
    ensures t == u
  {
    RunInv(NO_LOCKS, ops);
    var l := Run(NO_LOCKS, ops);
    assert rid in l.table && EntryOk(l.table[rid]);
  }

  /** A request is granted exactly when no other transaction holds a lock that excludes it. */
  lemma {:induction false} GrantedIff(l: Locks, t: TxnId, rid: RecordId)
    requires Inv(l) && t != NO_TXN
    ensures LockShared(l, t, rid).status == Ok <==> forall u :: HoldsExclusive(l, u, rid) ==> u == t
    ensures LockExclusive(l, t, rid).status == Ok <==> forall u :: Holds(l, u, rid) ==> u == t
  {
    var e := EntryAt(l, rid);
    assert e.exclusive != NO_TXN ==> HoldsExclusive(l, e.exclusive, rid) && Holds(l, e.exclusive, rid);
    if !(e.shared <= {t}) {
      var u :| u in e.shared && u != t;
      assert Holds(l, u, rid);
    }
  }

  /* ---------- Releasing everything ---------- */

  predicate OtherOrRelease(ops: seq<Op>, t: TxnId) {
    forall i :: 0 <= i < |ops| ==> ops[i].txn != t || ops[i].Release?
  }

  /**
   While one transaction only releases, others may lock and unlock in between: its locks only
   shrink, and each row it released stays released.
   */
  lemma {:induction false} ReleasedStays(l: Locks, ops: seq<Op>, t: TxnId, rid: RecordId)
    requires Inv(l) && ByTransactions(ops) && OtherOrRelease(ops, t)
    ensures Holds(Run(l, ops), t, rid) <==> Holds(l, t, rid) && Release(t, rid) !in ops
    decreases |ops|
  {
    if |ops| > 0 {
      StepHolds(l, ops[0], t, rid);
      StepInv(l, ops[0]);
      ReleasedStays(Step(l, ops[0]).locks, ops[1..], t, rid);
      assert ops == [ops[0]] + ops[1..];
    }
  }

  /**
   Releasing all the rows a transaction held at the start, in any order and whatever other
   transactions do in between, leaves it without a lock and without a list of locks.
   */
  lemma {:induction false} ReleaseAllInterleaved(l: Locks, ops: seq<Op>, t: TxnId)
    requires Inv(l) && t != NO_TXN && ByTransactions(ops) && OtherOrRelease(ops, t)
    requires forall rid :: rid in HeldBy(l, t) ==> Release(t, rid) in ops
    ensures var m := Forget(Run(l, ops), t);
            Inv(m) && t !in m.held && forall rid :: !Holds(m, t, rid)
  {
    RunInv(l, ops);
    var n := Run(l, ops);
    var m := Forget(n, t);
    forall rid ensures !Holds(n, t, rid) {
      ReleasedStays(l, ops, t, rid);
      assert rid in HeldBy(l, t) <==> Holds(l, t, rid);
    }
    forall u, rid ensures rid in HeldBy(m, u) <==> Holds(m, u, rid) {
      assert rid in HeldBy(n, u) <==> Holds(n, u, rid);
    }
  }

  /* ---------- Transaction zero ---------- */

  /** A request under id zero breaks exclusivity: a second transaction is granted the same row. */
  lemma {:induction false} ZeroIdNotExclusive(rid: RecordId)
    ensures var a := LockExclusive(NO_LOCKS, NO_TXN, rid);
            var b := LockExclusive(a.locks, 7, rid);
            && a.status == Ok && b.status == Ok
            && a.locks.table[rid] == LockEntry({}, NO_TXN)
            && rid in HeldBy(b.locks, NO_TXN) && rid in HeldBy(b.locks, 7)
  {
  }

  /**
   After a granted exclusive lock, every other request for the row, exclusive or shared, is
   refused if and only if the lock was granted to a transaction other than number zero.
   */
  lemma {:induction false} ExclusiveIffNotZero(l: Locks, t: TxnId, u: TxnId, rid: RecordId)
    requires u != t && LockExclusive(l, t, rid).status == Ok
    ensures var m := LockExclusive(l, t, rid).locks;
            && (LockExclusive(m, u, rid).status == Conflict <==> t != NO_TXN)
            && (LockShared(m, u, rid).status == Conflict <==> t != NO_TXN)
  {
  }
}
