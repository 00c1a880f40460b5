/** Agreement between the indexes of a table and its rows, and what statements write. */
module TableIndexModel {
  import opened Types
  import opened Bytes
  import opened Values
  import opened ExprEval
  import opened BPlusTreeModel
  import Search = BPlusTreeSearch
  import Runs = BPlusTreeRuns
  import opened Planner
  import opened IndexScan
  import opened RecordManager

  function KeyOf(row: Row, col: nat): Option<Key> {
    if col < |row| then ExtractInt64Key(row[col]) else None
  }

  ghost predicate EntryRight(rows: RowMap, entries: multiset<Entry>, col: nat, e: Entry) {
    entries[e] == if e.rid in rows && KeyOf(rows[e.rid], col) == Some(e.key) then 1 else 0
  }

  /** Exactly one entry per row with a key, and no other entry. */
  ghost predicate Indexed(rows: RowMap, entries: multiset<Entry>, col: nat) {
    forall e :: EntryRight(rows, entries, col, e)
  }

  /** A tree in search order that holds exactly one entry per row with a key. */
  ghost predicate TreeIndexes(rows: RowMap, s: State, col: nat) {
    WellShaped(s) && Strict(s.tree) && Indexed(rows, multiset(Flat(s.tree)), col)
  }

  /** The tree once a row's key has been inserted; a row without a key changes nothing. */
  ghost function Added(s: State, col: nat, row: Row, rid: RecordId): State {
    if KeyOf(row, col).None? || !WellShaped(s) then s
    else Runs.Step(s, Runs.Ins(Entry(KeyOf(row, col).value, rid)))
  }

  ghost function Removed(s: State, col: nat, row: Row, rid: RecordId): State {
    if KeyOf(row, col).None? || !WellShaped(s) then s
    else Runs.Step(s, Runs.Del(Entry(KeyOf(row, col).value, rid)))
  }

  /** The row's key goes to a leaf that is full of one key. */
  ghost predicate Crowds(s: State, col: nat, row: Row) {
    KeyOf(row, col).Some? && Stuck(s.tree, KeyOf(row, col).value)
  }

  lemma {:induction false} EntriesWith(rows: RowMap, entries: multiset<Entry>, col: nat, row: Row, rid: RecordId)
    requires Indexed(rows, entries, col) && rid !in rows
    ensures var key := KeyOf(row, col);
            Indexed(rows[rid := row], if key.None? then entries else entries + multiset{Entry(key.value, rid)}, col)
  {
    var key := KeyOf(row, col);
    var after := rows[rid := row];
    var more := if key.None? then entries else entries + multiset{Entry(key.value, rid)};
    forall e ensures EntryRight(after, more, col, e) {
      assert EntryRight(rows, entries, col, e);
    }
  }

  /** Inserting the key of a new row adds its entry and no other, whatever the separators. */
  lemma {:induction false} AddedEntries(rows: RowMap, s: State, col: nat, row: Row, rid: RecordId)
    requires WellShaped(s) && Weak(s.tree) && Indexed(rows, multiset(Flat(s.tree)), col) && rid !in rows
    ensures var s2 := Added(s, col, row, rid);
            Weak(s2.tree) && Indexed(rows[rid := row], multiset(Flat(s2.tree)), col)
  {
    EntriesWith(rows, multiset(Flat(s.tree)), col, row, rid);
    if KeyOf(row, col).Some? {
      Runs.StepKeeps(s, Runs.Ins(Entry(KeyOf(row, col).value, rid)));
    }
  }

  /**
   Inserting the key of a new row keeps the tree in step with the rows if and only if the
   key does not go to a leaf that is full of one key.
   */
  lemma {:induction false} AddedOkIff(rows: RowMap, s: State, col: nat, row: Row, rid: RecordId)
    requires TreeIndexes(rows, s, col) && rid !in rows
    ensures TreeIndexes(rows[rid := row], Added(s, col, row, rid), col) <==> !Crowds(s, col, row)
  {
    StrictImpliesWeak(s.tree, None, None);
    AddedEntries(rows, s, col, row, rid);
    if KeyOf(row, col).Some? {
      Runs.InsertStrictIff(s, Entry(KeyOf(row, col).value, rid));
    }
  }

  /** Taking out the entry of a row that goes leaves the entries of the other rows. */
  lemma {:induction false} EntriesWithout(rows: RowMap, entries: multiset<Entry>, col: nat, rid: RecordId)
    requires Indexed(rows, entries, col) && rid in rows
    ensures var key := KeyOf(rows[rid], col);
            Indexed(rows - {rid}, if key.None? then entries else entries - multiset{Entry(key.value, rid)}, col)
  {
    var key := KeyOf(rows[rid], col);
    var after := rows - {rid};
    var left := if key.None? then entries else entries - multiset{Entry(key.value, rid)};
    forall e ensures EntryRight(after, left, col, e) {
      assert EntryRight(rows, entries, col, e);
    }
  }

  /** Deleting the key of a row that goes keeps the tree in step, always. */
  lemma {:induction false} RemovedOk(rows: RowMap, s: State, col: nat, rid: RecordId)
    requires TreeIndexes(rows, s, col) && rid in rows
    ensures TreeIndexes(rows - {rid}, Removed(s, col, rows[rid], rid), col)
  {
    EntriesWithout(rows, multiset(Flat(s.tree)), col, rid);
    if KeyOf(rows[rid], col).Some? {
      Runs.StepKeepsStrict(s, Runs.Del(Entry(KeyOf(rows[rid], col).value, rid)));
    }
  }

  /** A row lost from the table only leaves the tree in step if and only if it has no key. */
  lemma {:induction false} LostRowIndexIff(rows: RowMap, s: State, col: nat, rid: RecordId, row: Row)
    requires rid !in rows && TreeIndexes(rows[rid := row], s, col)
    ensures TreeIndexes(rows, s, col) <==> KeyOf(row, col).None?
  {
    var more, entries := rows[rid := row], multiset(Flat(s.tree));
    if KeyOf(row, col).Some? {
      var e := Entry(KeyOf(row, col).value, rid);
      assert EntryRight(more, entries, col, e);
      assert !EntryRight(rows, entries, col, e);
    } else {
      forall e ensures EntryRight(rows, entries, col, e) {
        assert EntryRight(more, entries, col, e);
      }
    }
  }

  /* ---------- Rows that share a key ---------- */

  ghost function SharedBy(rows: RowMap, col: nat, k: Key): set<RecordId> {
    set rid | rid in rows && KeyOf(rows[rid], col) == Some(k)
  }

  /** No key of the column is shared by as many rows as a leaf holds entries. */
  ghost predicate FewRows(rows: RowMap, col: nat) {
    forall k :: |SharedBy(rows, col, k)| < LEAF_MAX
  }

  lemma {:induction false} MatchesBound(es: seq<Entry>, k: Key, ids: set<RecordId>)
    requires forall e :: e in multiset(es) ==> multiset(es)[e] <= 1
    requires forall i :: 0 <= i < |es| && es[i].key == k ==> es[i].rid in ids
    ensures |Search.Matches(es, k)| <= |ids|
  {
    if |es| > 0 {
      var rest := es[1..];
      assert es == [es[0]] + rest;
      forall e | e in multiset(rest) ensures multiset(rest)[e] <= 1 {
        assert multiset(es)[e] >= multiset(rest)[e];
      }
      if es[0].key == k {
        assert es[0] in multiset(es);
        assert multiset(rest)[es[0]] == 0;
        forall i | 0 <= i < |rest| && rest[i].key == k ensures rest[i].rid in ids - {es[0].rid} {
          assert rest[i] in multiset(rest) && rest[i] == es[i + 1];
        }
        MatchesBound(rest, k, ids - {es[0].rid});
      } else {
        forall i | 0 <= i < |rest| && rest[i].key == k ensures rest[i].rid in ids {
          assert rest[i] == es[i + 1];
        }
        MatchesBound(rest, k, ids);
      }
    }
  }

  /** While no key is shared by 292 rows, inserting the key of a row keeps an index in step. */
  lemma {:induction false} FewRowsNotCrowded(rows: RowMap, s: State, col: nat, row: Row)
    requires TreeIndexes(rows, s, col) && FewRows(rows, col)
    ensures !Crowds(s, col, row)
  {
    var es := Flat(s.tree);
    forall e | e in multiset(es) ensures multiset(es)[e] <= 1 {
      assert EntryRight(rows, multiset(es), col, e);
    }
    forall k ensures Runs.Count(s.tree, k) < LEAF_MAX {
      forall i | 0 <= i < |es| && es[i].key == k ensures es[i].rid in SharedBy(rows, col, k) {
        assert es[i] in multiset(es);
        assert EntryRight(rows, multiset(es), col, es[i]);
      }
      MatchesBound(es, k, SharedBy(rows, col, k));
    }
    if KeyOf(row, col).Some? {
      Runs.FewDuplicatesNotStuck(s, KeyOf(row, col).value);
    }
  }

  lemma {:induction false} FewerRows(rows: RowMap, rid: RecordId, row: Row, col: nat)
    requires rid !in rows && FewRows(rows[rid := row], col)
    ensures FewRows(rows, col)
  {
    forall k ensures |SharedBy(rows, col, k)| < LEAF_MAX {
      SubsetSize(SharedBy(rows, col, k), SharedBy(rows[rid := row], col, k));
    }
  }

  lemma {:induction false} SubsetSize(a: set<RecordId>, b: set<RecordId>)
    requires a <= b
    ensures |a| <= |b|
  {
    assert b == a + (b - a);
  }

  /** An index built from a scan of the table agrees with it. */
  lemma {:induction false} BuiltIndexed(t: Table, rows: RowMap, col: nat)
    requires Lists(t, rows)
    ensures Indexed(rows, multiset(KeyEntries(t, col)), col)
  {
    forall e ensures EntryRight(rows, multiset(KeyEntries(t, col)), col, e) {
      KeyEntriesCount(t, col, e);
      if e.rid in rows {
        assert Tuple(e.rid, rows[e.rid]) in t;
      }
    }
  }

  /** An index that the statements have kept in step is one that the planner's index scans may rely on. */
  lemma {:induction false} KeptIndexServesScans(t: Table, rows: RowMap, entries: seq<Entry>, col: nat)
    requires Lists(t, rows) && Indexed(rows, multiset(entries), col)
    ensures Agrees(t, entries, col)
  {
    BuiltIndexed(t, rows, col);
    var built := multiset(KeyEntries(t, col));
    forall e ensures multiset(entries)[e] == built[e] {
      assert EntryRight(rows, multiset(entries), col, e) && EntryRight(rows, built, col, e);
    }
  }

  /** An entry is built once if a listed row has its key, else not at all. */
  lemma {:induction false} KeyEntriesCount(t: Table, col: nat, e: Entry)
    requires Distinct(t)
    ensures multiset(KeyEntries(t, col))[e] <= 1
    ensures e in KeyEntries(t, col) <==> exists x :: x in t && x.rid == e.rid && KeyOf(x.values, col) == Some(e.key)
  {
    if |t| > 0 {
      KeyEntriesCount(t[1..], col, e);
      assert t == [t[0]] + t[1..];
      if t[0].rid == e.rid {
        NotListed(t[1..], col, e);
      }
      assert t[0] in t;
    }
  }

  lemma {:induction false} NotListed(t: Table, col: nat, e: Entry)
    requires forall i :: 0 <= i < |t| ==> t[i].rid != e.rid
    ensures e !in KeyEntries(t, col)
  {
    if |t| > 0 {
      NotListed(t[1..], col, e);
    }
  }

  /** The first rows that a scan returns. */
  ghost function FirstRows(t: Table, n: nat): RowMap
    requires n <= |t|
  {
    if n == 0 then map[] else FirstRows(t, n - 1)[t[n - 1].rid := t[n - 1].values]
  }

  lemma {:induction false} FirstRowsItem(t: Table, n: nat, rid: RecordId)
    requires n <= |t| && Distinct(t)
    ensures rid in FirstRows(t, n) <==> exists i :: 0 <= i < n && t[i].rid == rid
    ensures forall i :: 0 <= i < n && t[i].rid == rid ==> FirstRows(t, n)[rid] == t[i].values
  {
    if n > 0 {
      FirstRowsItem(t, n - 1, rid);
    }
  }

  lemma {:induction false} AllRows(t: Table, rows: RowMap)
    requires Lists(t, rows)
    ensures FirstRows(t, |t|) == rows
  {
    var all := FirstRows(t, |t|);
    forall rid ensures (rid in all <==> rid in rows) && (rid in rows ==> all[rid] == rows[rid]) {
      FirstRowsItem(t, |t|, rid);
      if rid in rows {
        var x := Tuple(rid, rows[rid]);
        assert x in t;
        var i :| 0 <= i < |t| && t[i] == x;
      }
      if rid in all {
        var i :| 0 <= i < |t| && t[i].rid == rid;
        assert t[i] in t;
      }
    }
  }

  lemma {:induction false} FewRowsPrefix(t: Table, n: nat, col: nat)
    requires n <= |t| && Distinct(t) && FewRows(FirstRows(t, |t|), col)
    ensures FewRows(FirstRows(t, n), col)
    decreases |t| - n
  {
    if n < |t| {
      FewRowsPrefix(t, n + 1, col);
      FirstRowsItem(t, n, t[n].rid);
      FewerRows(FirstRows(t, n), t[n].rid, t[n].values, col);
    }
  }

  /* ---------- Values and rows that statements write ---------- */

  /** A literal as a value of a column. */
  function Coerce(v: Value, c: Column): (r: Result<Value>)
    ensures r.Success? ==> MatchesType(r.value, c.ctype) && (r.value.Null? ==> c.nullable)
    ensures r.Failure? ==> r.status == InvalidArgument
  {
    if v.Null? then if c.nullable then Success(v) else Failure(InvalidArgument)
    else
      match c.ctype
      case TInt =>
        if !v.Int64? || v.n < -TWO_31 || v.n >= TWO_31 then Failure(InvalidArgument) else Success(Int32(v.n))
      case TBigInt => if v.Int64? then Success(v) else Failure(InvalidArgument)
      case TDouble =>
        if v.Double? then Success(v) else if v.Int64? then Success(Double(Nearest(v.n) as real)) else Failure(InvalidArgument)
      case TBool => if v.Bool? then Success(v) else Failure(InvalidArgument)
      case TVarchar => if v.Text? then Success(v) else Failure(InvalidArgument)
  }

  datatype Assignment = Assignment(col: nat, value: Value)

  function AssignAll(row: Row, xs: seq<Assignment>): (r: Row)
    ensures |r| == |row|
    decreases |xs|
  {
    if |xs| == 0 then row
    else
      var n := |xs| - 1;
      var r := AssignAll(row, xs[..n]);
      if xs[n].col < |r| then r[xs[n].col := xs[n].value] else r
  }

  /** Whether an UPDATE or DELETE picks a row; a clause that cannot be evaluated picks none. */
  predicate Picks(where: Option<Expr>, schema: Schema, row: Row) {
    |row| == |schema| && EvaluatePredicate(where, schema, row) == Success(true)
  }

  function Picked(t: Table, where: Option<Expr>, schema: Schema): Table {
    if |t| == 0 then []
    else (if Picks(where, schema, t[0].values) then [t[0]] else []) + Picked(t[1..], where, schema)
  }

  lemma {:induction false} PickedItems(t: Table, where: Option<Expr>, schema: Schema, x: Tuple)
    ensures x in Picked(t, where, schema) <==> x in t && Picks(where, schema, x.values)
  {
    if |t| > 0 {
      PickedItems(t[1..], where, schema, x);
      assert t == [t[0]] + t[1..];
    }
  }

  lemma {:induction false} PickedDistinct(t: Table, where: Option<Expr>, schema: Schema)
    requires Distinct(t)
    ensures Distinct(Picked(t, where, schema))
  {
    if |t| > 0 {
      PickedDistinct(t[1..], where, schema);
      var rest := Picked(t[1..], where, schema);
      forall j | 0 <= j < |rest| ensures rest[j].rid != t[0].rid {
        PickedItems(t[1..], where, schema, rest[j]);
      }
    }
  }

  /** The picked rows, each once. */
  ghost predicate Matches(m: Table, rows: RowMap, where: Option<Expr>, schema: Schema) {
    Distinct(m) && forall x :: x in m <==> x.rid in rows && rows[x.rid] == x.values && Picks(where, schema, x.values)
  }

  lemma {:induction false} PickedMatches(t: Table, rows: RowMap, where: Option<Expr>, schema: Schema)
    requires Lists(t, rows)
    ensures Matches(Picked(t, where, schema), rows, where, schema)
  {
    PickedDistinct(t, where, schema);
    forall x ensures x in Picked(t, where, schema) <==> x.rid in rows && rows[x.rid] == x.values && Picks(where, schema, x.values) {
      PickedItems(t, where, schema, x);
    }
  }

  /* ---------- Rewriting rows that may move ---------- */

  ghost predicate IdIn(m: Table, n: nat, rid: RecordId)
    requires n <= |m|
  {
    exists k :: 0 <= k < n && m[k].rid == rid
  }

  /** The row under an id once the first rows of `m` have been rewritten, each to the id in `moved`. */
  ghost predicate RowRight(before: RowMap, after: RowMap, m: Table, moved: seq<RecordId>, rid: RecordId)
    requires |moved| <= |m|
  {
    rid !in moved ==>
      if IdIn(m, |moved|, rid) then rid !in after
      else (rid in after <==> rid in before) && (rid in after ==> after[rid] == before[rid])
  }

  /** The first rows of `m` are rewritten, each exactly once; every other row is as before. */
  ghost predicate Rewritten(before: RowMap, after: RowMap, m: Table, moved: seq<RecordId>, xs: seq<Assignment>) {
    && |moved| <= |m|
    && (forall i, j :: 0 <= i < j < |moved| ==> moved[i] != moved[j])
    && (forall k :: 0 <= k < |moved| ==> moved[k] in after && after[moved[k]] == AssignAll(m[k].values, xs))
    && (forall rid :: RowRight(before, after, m, moved, rid))
  }

  /** The rows of `m` still to be rewritten are where they were. */
  ghost predicate Waiting(before: RowMap, m: Table, moved: seq<RecordId>) {
    forall k :: |moved| <= k < |m| ==> m[k].rid !in moved && m[k].rid in before && before[m[k].rid] == m[k].values
  }

  lemma {:induction false} NextWaits(before: RowMap, after: RowMap, m: Table, moved: seq<RecordId>, xs: seq<Assignment>)
    requires Rewritten(before, after, m, moved, xs) && Waiting(before, m, moved) && |moved| < |m| && Distinct(m)
    ensures var x := m[|moved|]; x.rid in after && after[x.rid] == x.values
  {
    var x := m[|moved|];
    assert RowRight(before, after, m, moved, x.rid);
    assert !IdIn(m, |moved|, x.rid);
  }

  /** One more row rewritten, to its own id or to one that was free. */
  lemma {:induction false} RewriteOne(before: RowMap, mid: RowMap, m: Table, moved: seq<RecordId>, xs: seq<Assignment>, to: RecordId)
    requires Rewritten(before, mid, m, moved, xs) && Waiting(before, m, moved) && |moved| < |m| && Distinct(m)
    requires to == m[|moved|].rid || to !in mid
    ensures var after := (mid - {m[|moved|].rid})[to := AssignAll(m[|moved|].values, xs)];
            Rewritten(before, after, m, moved + [to], xs) && Waiting(before, m, moved + [to])
  {
    var n, x := |moved|, m[|moved|];
    var after := (mid - {x.rid})[to := AssignAll(x.values, xs)];
    var moved2 := moved + [to];
    NextWaits(before, mid, m, moved, xs);
    assert to !in moved;
    forall k | 0 <= k < |moved2| ensures moved2[k] in after && after[moved2[k]] == AssignAll(m[k].values, xs) {
      if k < n {
        assert moved[k] in moved;
      }
    }
    forall rid ensures RowRight(before, after, m, moved2, rid) {
      RewriteOthers(before, mid, m, moved, to, rid, after);
    }
    forall k | n + 1 <= k < |m| ensures m[k].rid !in moved2 {
      WaitingStays(before, mid, m, moved, xs, to, k);
    }
  }

  lemma {:induction false} RewriteOthers(before: RowMap, mid: RowMap, m: Table, moved: seq<RecordId>, to: RecordId, rid: RecordId, after: RowMap)
    requires |moved| < |m| && RowRight(before, mid, m, moved, rid)
    requires after.Keys == mid.Keys - {m[|moved|].rid} + {to}
    requires forall x :: x in after && x != to ==> after[x] == mid[x]
    ensures RowRight(before, after, m, moved + [to], rid)
  {
    var n := |moved|;
    if rid !in moved + [to] {
      assert rid !in moved;
      assert IdIn(m, n + 1, rid) <==> IdIn(m, n, rid) || m[n].rid == rid;
    }
  }

  lemma {:induction false} WaitingStays(before: RowMap, mid: RowMap, m: Table, moved: seq<RecordId>, xs: seq<Assignment>, to: RecordId, k: nat)
    requires Rewritten(before, mid, m, moved, xs) && Waiting(before, m, moved) && Distinct(m)
    requires |moved| < |m| && (to == m[|moved|].rid || to !in mid)
    requires |moved| < k < |m|
    ensures m[k].rid !in moved + [to]
  {
    assert RowRight(before, mid, m, moved, m[k].rid);
    assert !IdIn(m, |moved|, m[k].rid);
  }

  lemma {:induction false} NothingRewritten(rows: RowMap, m: Table, xs: seq<Assignment>, where: Option<Expr>, schema: Schema)
    requires Matches(m, rows, where, schema)
    ensures Rewritten(rows, rows, m, [], xs) && Waiting(rows, m, [])
  {
    forall k | 0 <= k < |m| ensures m[k].rid in rows && rows[m[k].rid] == m[k].values {
      assert m[k] in m;
    }
  }

  /* ---------- Shared keys while rows are rewritten ---------- */

  /** The value that a list of assignments leaves in a column. */
  function LastSet(xs: seq<Assignment>, col: nat): Option<Value>
    decreases |xs|
  {
    if |xs| == 0 then None
    else
      var n := |xs| - 1;
      if xs[n].col == col then Some(xs[n].value) else LastSet(xs[..n], col)
  }

  lemma {:induction false} AssignedColumn(row: Row, xs: seq<Assignment>, col: nat)
    requires col < |row|
    ensures AssignAll(row, xs)[col] == match LastSet(xs, col) case None => row[col] case Some(v) => v
    decreases |xs|
  {
    if |xs| > 0 {
      AssignedColumn(row, xs[..|xs| - 1], col);
    }
  }

  /** The key that every rewritten row gets in a column, if the assignments give it one. */
  function SetKey(xs: seq<Assignment>, col: nat): Option<Key> {
    match LastSet(xs, col)
    case None => None
    case Some(v) => ExtractInt64Key(v)
  }

  /** A rewritten row has the key its column is set to, no key if that is no key, and its old key if the column is not set. */
  lemma {:induction false} KeyAfter(row: Row, xs: seq<Assignment>, col: nat)
    ensures KeyOf(AssignAll(row, xs), col) == SetKey(xs, col) || KeyOf(AssignAll(row, xs), col) == KeyOf(row, col)
    ensures SetKey(xs, col).Some? && col < |row| ==> KeyOf(AssignAll(row, xs), col) == SetKey(xs, col)
  {
    if col < |row| {
      AssignedColumn(row, xs, col);
    }
  }

  /** A key that the assignments do not set is shared by no more rows than before. */
  ghost predicate KeyFalls(before: RowMap, after: RowMap, xs: seq<Assignment>, col: nat, k: Key) {
    SetKey(xs, col) != Some(k) ==> |SharedBy(after, col, k)| <= |SharedBy(before, col, k)|
  }

  ghost predicate KeysFall(before: RowMap, after: RowMap, xs: seq<Assignment>) {
    forall col, k :: KeyFalls(before, after, xs, col, k)
  }

  /** One row rewritten to its own id or a free one. */
  ghost predicate OneRewritten(mid: RowMap, after: RowMap, rid: RecordId, to: RecordId, xs: seq<Assignment>) {
    rid in mid && (to == rid || to !in mid) && after == (mid - {rid})[to := AssignAll(mid[rid], xs)]
  }

  lemma {:induction false} FallsOneMore(before: RowMap, mid: RowMap, after: RowMap, rid: RecordId, to: RecordId,
                                        xs: seq<Assignment>, col: nat, k: Key)
    requires KeyFalls(before, mid, xs, col, k) && OneRewritten(mid, after, rid, to, xs)
    ensures KeyFalls(before, after, xs, col, k)
  {
    var a, b := SharedBy(mid, col, k), SharedBy(after, col, k);
    KeyAfter(mid[rid], xs, col);
    if SetKey(xs, col) != Some(k) {
      if to in b {
        assert rid in a;
        assert b <= (a - {rid}) + {to};
        SubsetSize(b, (a - {rid}) + {to});
      } else {
        SubsetSize(b, a);
      }
    }
  }

  lemma {:induction false} KeysFallOneMore(before: RowMap, mid: RowMap, after: RowMap, rid: RecordId, to: RecordId, xs: seq<Assignment>)
    requires KeysFall(before, mid, xs) && OneRewritten(mid, after, rid, to, xs)
    ensures KeysFall(before, after, xs)
  {
    forall col, k ensures KeyFalls(before, after, xs, col, k) {
      assert KeyFalls(before, mid, xs, col, k);
      FallsOneMore(before, mid, after, rid, to, xs, col, k);
    }
  }

  /** The key that the assignments set is shared by no fewer rows after one more row has been rewritten. */
  lemma {:induction false} SetKeyGrows(mid: RowMap, after: RowMap, rid: RecordId, to: RecordId, xs: seq<Assignment>, col: nat, k: Key)
    requires OneRewritten(mid, after, rid, to, xs) && SetKey(xs, col) == Some(k) && col < |mid[rid]|
    ensures |SharedBy(mid, col, k)| <= |SharedBy(after, col, k)|
  {
    var a, b := SharedBy(mid, col, k), SharedBy(after, col, k);
    KeyAfter(mid[rid], xs, col);
    assert (a - {rid}) + {to} <= b;
    SubsetSize((a - {rid}) + {to}, b);
    assert to !in a - {rid};
  }

  /**
   While rows are rewritten, no key is shared by too many rows if none was at the start and none
   is after the next row: the key that is set gets only more rows, and every other key only fewer.
   */
  lemma {:induction false} FewInBetween(before: RowMap, mid: RowMap, after: RowMap, rid: RecordId, to: RecordId,
                                        xs: seq<Assignment>, col: nat)
    requires KeysFall(before, mid, xs) && OneRewritten(mid, after, rid, to, xs) && col < |mid[rid]|
    requires FewRows(before, col) && FewRows(after, col)
    ensures FewRows(mid, col)
  {
    forall k ensures |SharedBy(mid, col, k)| < LEAF_MAX {
      if SetKey(xs, col) == Some(k) {
        SetKeyGrows(mid, after, rid, to, xs, col, k);
      } else {
        assert KeyFalls(before, mid, xs, col, k);
      }
    }
  }

  lemma {:induction false} FewWithoutOne(rows: RowMap, rid: RecordId, col: nat)
    requires rid in rows && FewRows(rows, col)
    ensures FewRows(rows - {rid}, col)
  {
    assert (rows - {rid})[rid := rows[rid]] == rows;
    FewerRows(rows - {rid}, rid, rows[rid], col);
  }
}
