/** The transaction manager and the versioned record store as objects updated in place. */
module MvccStore {
  import opened Types
  import opened Mvcc
  import opened MvccIsolation

  class TransactionManager {
    var nextTxnId: TxnId
    var transactions: map<TxnId, Txn>
    var activeTxnIds: set<TxnId>

    function Abs(): Manager
      reads this
    {
      Manager(nextTxnId, transactions, activeTxnIds)
    }

    ghost predicate Valid()
      reads this
    {
      ManagerInv(Abs())
    }

    constructor ()
      ensures Valid() && Abs() == NO_TXNS
    {
      nextTxnId, transactions, activeTxnIds := 1, map[], {};
    }

    /** Starts a transaction; its snapshot is the set of transactions active at this moment. */
    method Begin(level: Isolation) returns (t: TxnId)
      requires Valid()
      modifies this
      ensures Valid() && Abs() == Mvcc.Begin(old(Abs()), level)
      ensures t !in old(transactions) && HasState(Abs(), t, Active)
      ensures forall x :: x in old(transactions) ==> x < t && transactions[x] == old(transactions)[x]
    {
      BeginInv(Abs(), level);
      var txn := Txn(nextTxnId, Active, level, activeTxnIds);
      nextTxnId := nextTxnId + 1;
      activeTxnIds := activeTxnIds + {txn.id};
      transactions := transactions[txn.id := txn];
      t := txn.id;
    }

    method Commit(t: TxnId) returns (status: Status)
      requires Valid()
      modifies this
      ensures Valid() && Abs() == Finish(old(Abs()), t, Committed)
      ensures status == Ok <==> old(HasState(Abs(), t, Active))
      ensures status != Ok ==> Abs() == old(Abs())
    {
      FinishInv(Abs(), t, Committed);
      if t !in transactions || transactions[t].state != Active {
        return InvalidArgument;
      }
      transactions := transactions[t := transactions[t].(state := Committed)];
      activeTxnIds := activeTxnIds - {t};
      status := Ok;
    }

    method Abort(t: TxnId) returns (status: Status)
      requires Valid()
      modifies this
      ensures Valid() && Abs() == Finish(old(Abs()), t, Aborted)
      ensures status == Ok <==> old(HasState(Abs(), t, Active))
      ensures status != Ok ==> Abs() == old(Abs())
    {
      FinishInv(Abs(), t, Aborted);
      if t !in transactions || transactions[t].state != Active {
        return InvalidArgument;
      }
      transactions := transactions[t := transactions[t].(state := Aborted)];
      activeTxnIds := activeTxnIds - {t};
      status := Ok;
    }

    method GetTransaction(t: TxnId) returns (r: Option<Txn>)
      ensures r == if t in transactions then Some(transactions[t]) else None
    {
      r := if t in transactions then Some(transactions[t]) else None;
    }
  }

  /**
   The record store over a heap file. Where the heap file puts a new record, and whether
   the row can be encoded at all, are parameters.
   */
  class VersionedRecordStore {
    var heap: map<RecordId, Version>
    var order: seq<RecordId>
    ghost var lines: map<RecordId, seq<RecordId>>

    ghost function Abs(m: Manager): State
      reads this
    {
      State(m, heap, order, lines)
    }

    constructor ()
      ensures Abs(NO_TXNS) == START
    {
      heap, order, lines := map[], [], map[];
    }

    method InsertVersion(t: TxnId, encodes: bool, rid: RecordId, at: nat, data: Row) returns (r: Result<RecordId>)
      requires rid !in heap
      modifies this
      ensures forall m: Manager ::
                Abs(m) == if encodes then Mvcc.InsertVersion(old(Abs(m)), t, rid, at, data) else old(Abs(m))
      ensures r == if encodes then Success(rid) else Failure(InvalidArgument)
    {
      if !encodes {
        return Failure(InvalidArgument);
      }
      heap := heap[rid := Version(t, INVALID_TXN, rid, data)];
      order := PutAt(order, at, rid);
      lines := lines[rid := [rid]];
      r := Success(rid);
    }

    /** Overwrites the mark of a version, whatever it was. */
    method DeleteVersion(t: TxnId, rid: RecordId) returns (status: Status)
      modifies this
      ensures forall m: Manager :: Abs(m) == Mvcc.DeleteVersion(old(Abs(m)), t, rid)
      ensures status == if rid in old(heap) then Ok else NotFound
    {
      if rid !in heap {
        return NotFound;
      }
      heap := heap[rid := heap[rid].(xmax := t)];
      status := Ok;
    }

    /** Supersedes a version; when the new row cannot be encoded the old one stays superseded. */
    method UpdateVersion(t: TxnId, prev: RecordId, encodes: bool, rid: RecordId, at: nat, data: Row) returns (r: Result<RecordId>)
      requires rid !in heap
      modifies this
      ensures forall m: Manager ::
                Abs(m) == if encodes then Mvcc.UpdateVersion(old(Abs(m)), t, prev, rid, at, data)
                          else Mvcc.DeleteVersion(old(Abs(m)), t, prev)
      ensures r == if prev !in old(heap) then Failure(NotFound)
                   else if encodes then Success(rid) else Failure(InvalidArgument)
    {
      var status := DeleteVersion(t, prev);
      if status != Ok {
        return Failure(status);
      }
      if !encodes {
        return Failure(InvalidArgument);
      }
      assert Abs(NO_TXNS) == Mvcc.DeleteVersion(old(Abs(NO_TXNS)), t, prev);
      ghost var row := heap[prev].row;
      heap := heap[rid := Version(t, INVALID_TXN, heap[prev].row, data)];
      order := PutAt(order, at, rid);
      lines := if row in lines then lines[row := lines[row] + [rid]] else lines;
      r := Success(rid);
    }

    /** The versions a reader sees, in scan order. */
    method ScanVisible(m: Manager, reader: Txn) returns (out: seq<Tuple>)
      ensures out == Scan(m, heap, order, reader)
    {
      out := [];
      var i := 0;
      while i < |order|
        invariant i <= |order|
        invariant out == Scan(m, heap, order[..i], reader)
      {
        assert order[..i + 1] == order[..i] + [order[i]];
        ScanAppend(m, heap, order[..i], [order[i]], reader);
        if order[i] in heap && IsVisible(m, heap[order[i]], reader) {
          out := out + [Tuple(order[i], heap[order[i]].data)];
        }
        i := i + 1;
      }
      assert order[..i] == order;
    }
  }
}
