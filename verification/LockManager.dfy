/** The lock manager: a lock table and per-transaction lock sets updated together. */
module LockManager {
  import opened Types
  import opened LockModel

  /** Other transactions hold what they held; one transaction no longer holds the given rows. */
  ghost predicate OnlyReleased(a: Locks, b: Locks, t: TxnId, gone: set<RecordId>) {
    forall u, rid ::
      && (HoldsShared(b, u, rid) <==> HoldsShared(a, u, rid) && !(u == t && rid in gone))
      && (HoldsExclusive(b, u, rid) <==> HoldsExclusive(a, u, rid) && !(u == t && rid in gone))
  }

  lemma {:induction false} ReleaseOne(a: Locks, b: Locks, t: TxnId, gone: set<RecordId>, rid: RecordId)
    requires OnlyReleased(a, b, t, gone) && t != NO_TXN
    ensures OnlyReleased(a, Unlock(b, t, rid).locks, t, gone + {rid})
  {
    var c := Unlock(b, t, rid).locks;
    forall u, r
      ensures HoldsShared(c, u, r) <==> HoldsShared(a, u, r) && !(u == t && r in gone + {rid})
      ensures HoldsExclusive(c, u, r) <==> HoldsExclusive(a, u, r) && !(u == t && r in gone + {rid})
    {
      assert HoldsShared(b, u, r) <==> HoldsShared(a, u, r) && !(u == t && r in gone);
      assert HoldsExclusive(b, u, r) <==> HoldsExclusive(a, u, r) && !(u == t && r in gone);
    }
  }

  lemma {:induction false} NothingHeld(l: Locks, t: TxnId)
    requires Inv(l) && HeldBy(l, t) == {}
    ensures forall rid :: !Holds(l, t, rid)
  {
    forall rid ensures !Holds(l, t, rid) {
      assert rid in HeldBy(l, t) <==> Holds(l, t, rid);
    }
  }

  /** Once all its rows are released, forgetting the transaction's list keeps everything in order. */
  lemma {:induction false} ReleasedAll(a: Locks, b: Locks, t: TxnId, gone: set<RecordId>)
    requires Inv(a) && Inv(b) && OnlyReleased(a, b, t, gone) && gone == HeldBy(a, t)
    ensures var c := Forget(b, t);
            && Inv(c) && (forall rid :: !Holds(c, t, rid))
            && forall u, rid :: u != t ==> SameMode(a, c, u, rid)
  {
    var c := Forget(b, t);
    forall u, rid ensures rid in HeldBy(c, u) <==> Holds(c, u, rid) {
      assert rid in HeldBy(b, u) <==> Holds(b, u, rid);
      assert rid in HeldBy(a, t) <==> Holds(a, t, rid);
      assert HoldsShared(b, u, rid) <==> HoldsShared(a, u, rid) && !(u == t && rid in gone);
    }
    forall rid ensures !Holds(c, t, rid) {
      assert rid in HeldBy(c, t) <==> Holds(c, t, rid);
    }
    forall u, rid | u != t ensures SameMode(a, c, u, rid) {
      assert HoldsShared(b, u, rid) <==> HoldsShared(a, u, rid);
    }
  }

  /** A transaction holds a row in the same mode. */
  predicate SameMode(a: Locks, b: Locks, u: TxnId, rid: RecordId) {
    (HoldsShared(b, u, rid) <==> HoldsShared(a, u, rid)) && (HoldsExclusive(b, u, rid) <==> HoldsExclusive(a, u, rid))
  }

  method HeldByOther(holders: set<TxnId>, t: TxnId) returns (other: bool)
    ensures other <==> !(holders <= {t})
  {
    var rest := holders;
    while rest != {}
      invariant rest <= holders <= rest + {t}
      decreases |rest|
    {
      var holder :| holder in rest;
      if holder != t {
        return true;
      }
      rest := rest - {holder};
    }
    other := false;
  }

  class LockManager {
    var lockTable: map<RecordId, LockEntry>
    var txnLocks: map<TxnId, set<RecordId>>

    ghost function Abs(): Locks
      reads this
    {
      Locks(lockTable, txnLocks)
    }

    constructor ()
      ensures Abs() == NO_LOCKS && Inv(Abs())
    {
      lockTable, txnLocks := map[], map[];
    }

    method LockShared(t: TxnId, rid: RecordId) returns (status: Status)
      modifies this
      ensures Outcome(Abs(), status) == LockModel.LockShared(old(Abs()), t, rid)
      ensures old(Inv(Abs())) && t != NO_TXN ==> Inv(Abs())
    {
      if Inv(Abs()) && t != NO_TXN {
        StepInv(Abs(), Shared(t, rid));
      }
      var entry := if rid in lockTable then lockTable[rid] else LockEntry({}, NO_TXN);
      lockTable := lockTable[rid := entry];
      if entry.exclusive != NO_TXN && entry.exclusive != t {
        return Conflict;
      }
      entry := entry.(shared := entry.shared + {t});
      lockTable := lockTable[rid := entry];
      txnLocks := txnLocks[t := (if t in txnLocks then txnLocks[t] else {}) + {rid}];
      status := Ok;
    }

    method LockExclusive(t: TxnId, rid: RecordId) returns (status: Status)
      modifies this
      ensures Outcome(Abs(), status) == LockModel.LockExclusive(old(Abs()), t, rid)
      ensures old(Inv(Abs())) && t != NO_TXN ==> Inv(Abs())
    {
      if Inv(Abs()) && t != NO_TXN {
        StepInv(Abs(), Exclusive(t, rid));
      }
      var entry := if rid in lockTable then lockTable[rid] else LockEntry({}, NO_TXN);
      lockTable := lockTable[rid := entry];
      if entry.exclusive != NO_TXN && entry.exclusive != t {
        return Conflict;
      }
      var shared := HeldByOther(entry.shared, t);
      if shared {
        return Conflict;
      }
      entry := LockEntry({}, t);
      lockTable := lockTable[rid := entry];
      txnLocks := txnLocks[t := (if t in txnLocks then txnLocks[t] else {}) + {rid}];
      status := Ok;
    }

    method Unlock(t: TxnId, rid: RecordId) returns (status: Status)
      modifies this
      ensures Outcome(Abs(), status) == LockModel.Unlock(old(Abs()), t, rid)
      ensures old(Inv(Abs())) && t != NO_TXN ==> Inv(Abs())
    {
      if Inv(Abs()) && t != NO_TXN {
        StepInv(Abs(), Release(t, rid));
      }
      if rid !in lockTable {
        return NotFound;
      }
      var entry := lockTable[rid];
      var holding := t in entry.shared;
      entry := entry.(shared := entry.shared - {t});
      if entry.exclusive == t {
        entry := entry.(exclusive := NO_TXN);
        holding := true;
      }
      if entry.shared == {} && entry.exclusive == NO_TXN {
        lockTable := lockTable - {rid};
      } else {
        lockTable := lockTable[rid := entry];
      }
      if t in txnLocks {
        txnLocks := txnLocks[t := txnLocks[t] - {rid}];
      }
      status := if holding then Ok else NotFound;
    }

    /** Releases every lock of one transaction and no lock of any other. */
    method ReleaseAll(t: TxnId)
      requires Inv(Abs()) && t != NO_TXN
      modifies this
      ensures Inv(Abs()) && t !in txnLocks
      ensures forall rid :: !Holds(Abs(), t, rid)
      ensures forall u, rid :: u != t ==> SameMode(old(Abs()), Abs(), u, rid)
    {
      ghost var start := Abs();
      if t !in txnLocks {
        NothingHeld(Abs(), t);
        return;
      }
      var held := txnLocks[t];
      ghost var gone: set<RecordId> := {};
      while held != {}
        invariant Inv(Abs()) && OnlyReleased(start, Abs(), t, gone) && gone + held == HeldBy(start, t)
        decreases |held|
      {
        var rid :| rid in held;
        held := held - {rid};
        ReleaseOne(start, Abs(), t, gone, rid);
        var status := Unlock(t, rid);
        gone := gone + {rid};
      }
      ReleasedAll(start, Abs(), t, gone);
      txnLocks := txnLocks - {t};
    }
  }
}
