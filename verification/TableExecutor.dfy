/** INSERT, UPDATE, DELETE, CREATE INDEX and SELECT on one table, keeping every index tree in step with the rows. */
module TableExecutor {
  import opened Types
  import opened Values
  import opened ExprEval
  import opened BPlusTreeModel
  import Runs = BPlusTreeRuns
  import B = BPlusTree
  import opened Planner
  import opened IndexScan
  import opened RecordManager
  import opened TableIndexModel
  import Scan = ScanOperators

  /** A statement's SET clause: column name and literal. */
  datatype SetClause = SetClause(column: string, literal: Value)

  /* ---------- Preparing statements ---------- */

  /** The column positions an INSERT writes to: all columns when none are named. */
  function TargetsOf(schema: Schema, columns: seq<string>): Result<seq<nat>> {
    if |columns| == 0 then Success(seq(|schema|, i => i)) else Positions(schema, columns)
  }

  function Positions(schema: Schema, columns: seq<string>): (r: Result<seq<nat>>)
    ensures r.Success? ==> |r.value| == |columns|
    ensures r.Success? ==> forall i :: 0 <= i < |columns| ==> IndexOf(schema, columns[i]) == Some(r.value[i])
  {
    if |columns| == 0 then Success([])
    else
      var n := |columns| - 1;
      var before := Positions(schema, columns[..n]);
      var c := IndexOf(schema, columns[n]);
      if before.Failure? then before
      else if c.None? then Failure(InvalidArgument)
      else Success(before.value + [c.value])
  }

  lemma {:induction false} UnknownColumn(schema: Schema, columns: seq<string>, n: nat)
    requires n < |columns| && IndexOf(schema, columns[n]).None?
    ensures Positions(schema, columns) == Failure(InvalidArgument)
  {
    var m := |columns| - 1;
    if n < m {
      UnknownColumn(schema, columns[..m], n);
    } else {
      PositionsFail(schema, columns[..m]);
    }
  }

  lemma {:induction false} PositionsFail(schema: Schema, columns: seq<string>)
    ensures Positions(schema, columns).Failure? ==> Positions(schema, columns).status == InvalidArgument
  {
    if |columns| > 0 {
      PositionsFail(schema, columns[..|columns| - 1]);
    }
  }

  method TargetColumns(schema: Schema, columns: seq<string>) returns (r: Result<seq<nat>>)
    ensures r == TargetsOf(schema, columns)
  {
    if |columns| == 0 {
      return Success(seq(|schema|, i => i));
    }
    var targets: seq<nat> := [];
    var i := 0;
    while i < |columns|
      invariant i <= |columns| && Positions(schema, columns[..i]) == Success(targets)
    {
      var c := IndexOf(schema, columns[i]);
      if c.None? {
        UnknownColumn(schema, columns, i);
        return Failure(InvalidArgument);
      }
      assert columns[..i + 1][..i] == columns[..i];
      targets := targets + [c.value];
      i := i + 1;
    }
    assert columns[..i] == columns;
    r := Success(targets);
  }

  /** The last of the first `n` targets that is column `c`. */
  function LastTarget(targets: seq<nat>, n: nat, c: nat): (r: Option<nat>)
    requires n <= |targets|
    ensures match r
            case None => forall i :: 0 <= i < n ==> targets[i] != c
            case Some(i) => i < n && targets[i] == c && forall j :: i < j < n ==> targets[j] != c
  {
    if n == 0 then None else if targets[n - 1] == c then Some(n - 1) else LastTarget(targets, n - 1, c)
  }

  /** The first literal from `i` on that its column refuses. */
  function FirstRefused(schema: Schema, targets: seq<nat>, row: Row, i: nat): (r: Option<nat>)
    requires TargetsFit(schema, targets, row) && i <= |row|
    ensures match r
            case None => forall j :: i <= j < |row| ==> Coerce(row[j], schema[targets[j]]).Success?
            case Some(k) =>
              && i <= k < |row| && Coerce(row[k], schema[targets[k]]).Failure?
              && forall j :: i <= j < k ==> Coerce(row[j], schema[targets[j]]).Success?
    decreases |row| - i
  {
    if i == |row| then None
    else if Coerce(row[i], schema[targets[i]]).Failure? then Some(i)
    else FirstRefused(schema, targets, row, i + 1)
  }

  /** One literal per target, and every target a column. */
  predicate TargetsFit(schema: Schema, targets: seq<nat>, row: Row) {
    |row| == |targets| && forall i :: 0 <= i < |targets| ==> targets[i] < |schema|
  }

  /** What the first `n` literals leave in a column: that of the last one aimed at it, else NULL. */
  function ColumnValue(schema: Schema, targets: seq<nat>, row: Row, n: nat, c: nat): Value
    requires TargetsFit(schema, targets, row) && n <= |row| && c < |schema|
    requires forall i :: 0 <= i < n ==> Coerce(row[i], schema[targets[i]]).Success?
  {
    match LastTarget(targets, n, c)
    case None => Null
    case Some(i) => Coerce(row[i], schema[targets[i]]).value
  }

  /**
   The row that a list of literals stands for: each column holds the coerced literal of the
   last target that names it, or NULL. It stands for none if a literal is refused; the first
   refused one decides the error.
   */
  function RowFor(schema: Schema, targets: seq<nat>, row: Row): (r: Result<Row>)
    ensures r.Success? <==> TargetsFit(schema, targets, row) && FirstRefused(schema, targets, row, 0).None?
    ensures r.Success? ==> RowFits(r.value, schema)
  {
    if !TargetsFit(schema, targets, row) then Failure(InvalidArgument)
    else
      match FirstRefused(schema, targets, row, 0)
      case Some(i) => Failure(Coerce(row[i], schema[targets[i]]).status)
      case None => Success(seq(|schema|, c requires 0 <= c < |schema| => ColumnValue(schema, targets, row, |row|, c)))
  }

  /** The loop that overwrites a row of NULLs with the coerced literals, from left to right. */
  method BuildRow(schema: Schema, targets: seq<nat>, row: Row) returns (r: Result<Row>)
    requires TargetsFit(schema, targets, row)
    ensures r == RowFor(schema, targets, row)
  {
    var full: Row := seq(|schema|, _ => Null);
    var i := 0;
    while i < |row|
      invariant i <= |row| && |full| == |schema|
      invariant forall j :: 0 <= j < i ==> Coerce(row[j], schema[targets[j]]).Success?
      invariant forall c :: 0 <= c < |schema| ==> full[c] == ColumnValue(schema, targets, row, i, c)
    {
      var v := Coerce(row[i], schema[targets[i]]);
      if v.Failure? {
        assert FirstRefused(schema, targets, row, 0) == Some(i);
        return Failure(v.status);
      }
      full := full[targets[i] := v.value];
      i := i + 1;
    }
    assert FirstRefused(schema, targets, row, 0) == None;
    assert full == RowFor(schema, targets, row).value;
    r := Success(full);
  }

  /** The assignments of a SET clause, or an error for an unknown column or a literal of the wrong kind. */
  predicate ClausesOk(schema: Schema, clauses: seq<SetClause>) {
    forall i :: 0 <= i < |clauses| ==> ClauseOk(schema, clauses[i])
  }

  predicate AssignmentsFor(schema: Schema, clauses: seq<SetClause>, xs: seq<Assignment>) {
    && |xs| == |clauses|
    && forall i :: 0 <= i < |xs| ==>
         && IndexOf(schema, clauses[i].column) == Some(xs[i].col)
         && Coerce(clauses[i].literal, schema[xs[i].col]) == Success(xs[i].value)
  }

  predicate ClauseOk(schema: Schema, c: SetClause) {
    IndexOf(schema, c.column).Some? && Coerce(c.literal, schema[IndexOf(schema, c.column).value]).Success?
  }

  method Assignments(schema: Schema, clauses: seq<SetClause>) returns (r: Result<seq<Assignment>>)
    ensures r.Success? <==> ClausesOk(schema, clauses)
    ensures r.Success? ==> AssignmentsFor(schema, clauses, r.value)
    ensures r.Failure? ==> r.status == InvalidArgument
  {
    var out: seq<Assignment> := [];
    var i := 0;
    while i < |clauses|
      invariant |out| == i <= |clauses|
      invariant forall j :: 0 <= j < i ==> ClauseOk(schema, clauses[j])
      invariant forall j :: 0 <= j < i ==>
                  && IndexOf(schema, clauses[j].column) == Some(out[j].col)
                  && Coerce(clauses[j].literal, schema[out[j].col]) == Success(out[j].value)
    {
      var c := IndexOf(schema, clauses[i].column);
      if c.None? {
        return Failure(InvalidArgument);
      }
      var v := Coerce(clauses[i].literal, schema[c.value]);
      if v.Failure? {
        return Failure(v.status);
      }
      out := out + [Assignment(c.value, v.value)];
      i := i + 1;
    }
    r := Success(out);
  }

  method Apply(row: Row, xs: seq<Assignment>) returns (r: Row)
    ensures r == AssignAll(row, xs)
  {
    r := row;
    var i := 0;
    while i < |xs|
      invariant i <= |xs| && r == AssignAll(row, xs[..i])
    {
      assert xs[..i + 1][..i] == xs[..i];
      if xs[i].col < |r| {
        r := r[xs[i].col := xs[i].value];
      }
      i := i + 1;
    }
    assert xs[..i] == xs;
  }

  method CollectMatches(t: Table, where: Option<Expr>, schema: Schema) returns (m: Table)
    ensures m == Picked(t, where, schema)
  {
    m := [];
    var i := 0;
    while i < |t|
      invariant i <= |t|
      invariant m + Picked(t[i..], where, schema) == Picked(t, where, schema)
    {
      assert t[i..][1..] == t[i + 1..];
      if Picks(where, schema, t[i].values) {
        m := m + [t[i]];
      }
      i := i + 1;
    }
  }

  /** A tree filled with the keys of the first rows; `crowds` tells whether one met a leaf full of one key. */
  ghost predicate Filled(rows: RowMap, s: State, col: nat, crowds: bool) {
    && WellShaped(s) && Weak(s.tree) && Indexed(rows, multiset(Flat(s.tree)), col)
    && (!crowds ==> TreeIndexes(rows, s, col))
  }

  lemma {:induction false} FilledOneMore(t: Table, n: nat, col: nat, s: State, crowds: bool)
    requires Distinct(t) && n < |t| && Filled(FirstRows(t, n), s, col, crowds)
    ensures var more := crowds || Crowds(s, col, t[n].values);
            && Filled(FirstRows(t, n + 1), Added(s, col, t[n].values, t[n].rid), col, more)
            && (FewRows(FirstRows(t, |t|), col) && !crowds ==> !more)
  {
    FirstRowsItem(t, n, t[n].rid);
    AddedEntries(FirstRows(t, n), s, col, t[n].values, t[n].rid);
    if !crowds {
      AddedOkIff(FirstRows(t, n), s, col, t[n].values, t[n].rid);
      if FewRows(FirstRows(t, |t|), col) {
        FewRowsPrefix(t, n, col);
        FewRowsNotCrowded(FirstRows(t, n), s, col, t[n].values);
      }
    }
  }

  lemma {:induction false} EmptyFilled(s: State, col: nat)
    requires WellShaped(s) && Strict(s.tree) && Flat(s.tree) == []
    ensures Filled(map[], s, col, false)
  {
    StrictImpliesWeak(s.tree, None, None);
  }

  /** Inserts the key of a row, if it has one. */
  method InsertKey(tree: B.BPlusTree, col: nat, row: Row, rid: RecordId)
    requires tree.Valid()
    modifies tree
    ensures tree.Valid() && tree.Abs() == Added(old(tree.Abs()), col, row, rid)
  {
    var key := KeyOf(row, col);
    if key.Some? {
      tree.Insert(Entry(key.value, rid));
    }
  }

  /** Deletes the key of a row; a key that is not found is not an error. */
  method DeleteKey(tree: B.BPlusTree, col: nat, row: Row, rid: RecordId)
    requires tree.Valid()
    modifies tree
    ensures tree.Valid() && tree.Abs() == Removed(old(tree.Abs()), col, row, rid)
  {
    var key := KeyOf(row, col);
    if key.Some? {
      var _ := tree.Delete(Entry(key.value, rid));
    }
  }

  /** A new tree holding the key of every row of a scan. */
  method BuildTree(t: Table, col: nat, firstFree: nat) returns (tree: B.BPlusTree, ghost crowds: bool)
    requires Distinct(t)
    ensures fresh(tree) && tree.Valid() && Filled(FirstRows(t, |t|), tree.Abs(), col, crowds)
    ensures FewRows(FirstRows(t, |t|), col) ==> !crowds
  {
    tree := new B.BPlusTree(firstFree);
    crowds := false;
    EmptyFilled(tree.Abs(), col);
    var i := 0;
    while i < |t|
      invariant i <= |t| && fresh(tree) && tree.Valid() && Filled(FirstRows(t, i), tree.Abs(), col, crowds)
      invariant FewRows(FirstRows(t, |t|), col) ==> !crowds
    {
      FilledOneMore(t, i, col, tree.Abs(), crowds);
      crowds := crowds || Crowds(tree.Abs(), col, t[i].values);
      InsertKey(tree, col, t[i].values, t[i].rid);
      i := i + 1;
    }
  }

  /* ---------- The rows stored by an INSERT ---------- */

  function PutAll(rows: RowMap, rids: seq<RecordId>, values: seq<Row>): RowMap
    requires |rids| == |values|
  {
    if |rids| == 0 then rows
    else
      var n := |rids| - 1;
      PutAll(rows, rids[..n], values[..n])[rids[n] := values[n]]
  }

  lemma {:induction false} PutOneMore(rows: RowMap, rids: seq<RecordId>, values: seq<Row>, rid: RecordId, row: Row)
    requires |rids| == |values|
    ensures PutAll(rows, rids + [rid], values + [row]) == PutAll(rows, rids, values)[rid := row]
  {
    assert (rids + [rid])[..|rids|] == rids && (values + [row])[..|values|] == values;
  }

  lemma {:induction false} PutKeys(rows: RowMap, rids: seq<RecordId>, values: seq<Row>, rid: RecordId)
    requires |rids| == |values|
    ensures rid in PutAll(rows, rids, values) <==> rid in rows || rid in rids
  {
    if |rids| > 0 {
      var n := |rids| - 1;
      PutKeys(rows, rids[..n], values[..n], rid);
      assert rids == rids[..n] + [rids[n]];
    }
  }

  /** The literals stand for a row that can be stored. */
  predicate Insertable(schema: Schema, targets: seq<nat>, encode: Encoder, literals: Row) {
    var row := RowFor(schema, targets, literals);
    row.Success? && Storable(encode, row.value)
  }

  /** The first lists of literals are stored as rows, under different ids that were not in use; nothing else changed. */
  ghost predicate Inserted(schema: Schema, targets: seq<nat>, before: RowMap, after: RowMap, values: seq<Row>,
                           placed: seq<RecordId>, stored: seq<Row>) {
    && |placed| == |stored| <= |values| && after == PutAll(before, placed, stored)
    && (forall i :: 0 <= i < |placed| ==> placed[i] !in before)
    && (forall i, j :: 0 <= i < j < |placed| ==> placed[i] != placed[j])
    && (forall i :: 0 <= i < |stored| ==> RowFor(schema, targets, values[i]) == Success(stored[i]))
  }

  lemma {:induction false} InsertedOneMore(schema: Schema, targets: seq<nat>, before: RowMap, mid: RowMap, values: seq<Row>,
                                           placed: seq<RecordId>, stored: seq<Row>, rid: RecordId, row: Row)
    requires Inserted(schema, targets, before, mid, values, placed, stored) && |placed| < |values|
    requires rid !in mid && RowFor(schema, targets, values[|placed|]) == Success(row)
    ensures Inserted(schema, targets, before, mid[rid := row], values, placed + [rid], stored + [row])
  {
    PutOneMore(before, placed, stored, rid, row);
    PutKeys(before, placed, stored, rid);
  }

  /* ---------- Rows that fit their table ---------- */

  predicate RowFits(row: Row, schema: Schema) {
    |row| == |schema| && forall c :: 0 <= c < |schema| ==> MatchesType(row[c], schema[c].ctype)
  }

  ghost predicate AllRowsFit(rows: RowMap, schema: Schema) {
    forall rid :: rid in rows ==> RowFits(rows[rid], schema)
  }

  lemma {:induction false} AssignedFits(row: Row, clauses: seq<SetClause>, xs: seq<Assignment>, schema: Schema, n: nat)
    requires RowFits(row, schema) && AssignmentsFor(schema, clauses, xs) && n <= |xs|
    ensures RowFits(AssignAll(row, xs[..n]), schema)
  {
    if n > 0 {
      AssignedFits(row, clauses, xs, schema, n - 1);
      assert xs[..n][..n - 1] == xs[..n - 1];
    }
  }

  lemma {:induction false} ScannedFit(t: Table, rows: RowMap, schema: Schema)
    requires Lists(t, rows) && AllRowsFit(rows, schema)
    ensures RowsFit(t, schema)
  {
    forall i | 0 <= i < |t| ensures RowFits(t[i].values, schema) {
      assert t[i] in t;
    }
  }

  /** The rows an UPDATE leaves; a row whose new form fits on no page is lost and ends the statement. */
  ghost predicate UpdatedTo(before: RowMap, after: RowMap, m: Table, xs: seq<Assignment>, moved: seq<RecordId>,
                            lost: Option<Tuple>) {
    match lost
    case None => Rewritten(before, after, m, moved, xs)
    case Some(x) => x.rid !in after && Rewritten(before, after[x.rid := x.values], m, moved, xs)
  }

  /** Part of the rows have been rewritten; the others wait where the scan found them. */
  ghost predicate Midway(before: RowMap, after: RowMap, m: Table, moved: seq<RecordId>, xs: seq<Assignment>) {
    Rewritten(before, after, m, moved, xs) && Waiting(before, m, moved) && KeysFall(before, after, xs)
  }

  /* ---------- The indexes of a table ---------- */

  /** An index of the table and its tree. */
  datatype IndexState = IndexState(name: string, column: string, tree: B.BPlusTree)

  ghost predicate NameIn(xs: seq<IndexState>, name: string) {
    exists i :: 0 <= i < |xs| && xs[i].name == name
  }

  /** One more index, behind those there were. */
  ghost predicate Extended(before: seq<IndexState>, after: seq<IndexState>, name: string, column: string) {
    && |after| == |before| + 1 && after[..|before|] == before
    && after[|before|].name == name && after[|before|].column == column
  }

  /** The column is one whose values are index keys. */
  predicate Keyed(schema: Schema, column: string) {
    var col := IndexOf(schema, column);
    col.Some? && (schema[col.value].ctype == TInt || schema[col.value].ctype == TBigInt)
  }

  function KeyColumn(schema: Schema, column: string): nat {
    if IndexOf(schema, column).Some? then IndexOf(schema, column).value else |schema|
  }

  /** Every index that is not stale has a tree in search order with exactly one entry per row with a key. */
  ghost predicate Kept(rows: RowMap, schema: Schema, xs: seq<IndexState>, ss: seq<State>, stale: seq<bool>) {
    && |ss| == |stale| == |xs|
    && forall i :: 0 <= i < |xs| && !stale[i] ==> TreeIndexes(rows, ss[i], KeyColumn(schema, xs[i].column))
  }

  /** The trees once the first `n` have got a row's key. */
  ghost predicate KeysAdded(schema: Schema, xs: seq<IndexState>, before: seq<State>, after: seq<State>, row: Row,
                            rid: RecordId, n: nat) {
    && |xs| == |before| == |after|
    && forall i :: 0 <= i < |xs| ==>
         after[i] == if i < n then Added(before[i], KeyColumn(schema, xs[i].column), row, rid) else before[i]
  }

  ghost predicate KeysRemoved(schema: Schema, xs: seq<IndexState>, before: seq<State>, after: seq<State>, row: Row,
                              rid: RecordId, n: nat) {
    && |xs| == |before| == |after|
    && forall i :: 0 <= i < |xs| ==>
         after[i] == if i < n then Removed(before[i], KeyColumn(schema, xs[i].column), row, rid) else before[i]
  }

  /** The first `n` indexes are stale if they were, or if the row's key goes to a leaf full of one key there. */
  ghost predicate Crowded(schema: Schema, xs: seq<IndexState>, ss: seq<State>, row: Row, before: seq<bool>, after: seq<bool>, n: nat) {
    && |xs| == |ss| == |before| == |after|
    && forall i :: 0 <= i < |xs| ==>
         after[i] == (before[i] || (i < n && Crowds(ss[i], KeyColumn(schema, xs[i].column), row)))
  }

  lemma {:induction false} AddedOneMore(schema: Schema, xs: seq<IndexState>, before: seq<State>, mid: seq<State>, row: Row,
                                        rid: RecordId, i: nat)
    requires i < |xs| && KeysAdded(schema, xs, before, mid, row, rid, i)
    ensures mid[i] == before[i]
    ensures KeysAdded(schema, xs, before, mid[i := Added(mid[i], KeyColumn(schema, xs[i].column), row, rid)], row, rid, i + 1)
  {
  }

  lemma {:induction false} RemovedOneMore(schema: Schema, xs: seq<IndexState>, before: seq<State>, mid: seq<State>, row: Row,
                                          rid: RecordId, i: nat)
    requires i < |xs| && KeysRemoved(schema, xs, before, mid, row, rid, i)
    ensures KeysRemoved(schema, xs, before, mid[i := Removed(mid[i], KeyColumn(schema, xs[i].column), row, rid)], row, rid, i + 1)
  {
  }

  /** A stale index stays stale. */
  ghost predicate Worse(before: seq<bool>, after: seq<bool>) {
    |before| <= |after| && forall i :: 0 <= i < |before| && before[i] ==> after[i]
  }

  /** An index does not become stale while no key of its column is shared by as many rows as a leaf holds. */
  ghost predicate Spared(schema: Schema, xs: seq<IndexState>, r1: RowMap, r2: RowMap, before: seq<bool>, after: seq<bool>) {
    && |before| <= |after| <= |xs|
    && forall i :: 0 <= i < |after| && (i < |before| ==> !before[i]) && FewInBoth(r1, r2, KeyColumn(schema, xs[i].column)) ==>
         !after[i]
  }

  ghost predicate FewInBoth(r1: RowMap, r2: RowMap, col: nat) {
    FewRows(r1, col) && FewRows(r2, col)
  }

  /** Adding the key of a new row keeps an index in step exactly if no leaf is crowded there; few shared keys crowd none. */
  lemma {:induction false} AllAddedIff(rows: RowMap, schema: Schema, xs: seq<IndexState>, before: seq<State>,
                                       after: seq<State>, row: Row, rid: RecordId, stale: seq<bool>, stale2: seq<bool>)
    requires Kept(rows, schema, xs, before, stale) && rid !in rows
    requires KeysAdded(schema, xs, before, after, row, rid, |xs|) && Crowded(schema, xs, before, row, stale, stale2, |xs|)
    ensures forall i :: 0 <= i < |xs| && !stale[i] ==>
              (TreeIndexes(rows[rid := row], after[i], KeyColumn(schema, xs[i].column)) <==> !stale2[i])
    ensures Kept(rows[rid := row], schema, xs, after, stale2)
    ensures Spared(schema, xs, rows, rows, stale, stale2) && Worse(stale, stale2)
  {
    var more := rows[rid := row];
    forall i | 0 <= i < |xs| && !stale[i]
      ensures TreeIndexes(more, after[i], KeyColumn(schema, xs[i].column)) <==> !stale2[i]
      ensures FewRows(rows, KeyColumn(schema, xs[i].column)) ==> !stale2[i]
    {
      AddedOkIff(rows, before[i], KeyColumn(schema, xs[i].column), row, rid);
      if FewRows(rows, KeyColumn(schema, xs[i].column)) {
        FewRowsNotCrowded(rows, before[i], KeyColumn(schema, xs[i].column), row);
      }
    }
  }

  lemma {:induction false} AllRemovedOk(rows: RowMap, schema: Schema, xs: seq<IndexState>, before: seq<State>,
                                        after: seq<State>, rid: RecordId, stale: seq<bool>)
    requires Kept(rows, schema, xs, before, stale) && rid in rows
    requires KeysRemoved(schema, xs, before, after, rows[rid], rid, |xs|)
    ensures Kept(rows - {rid}, schema, xs, after, stale)
  {
    var less := rows - {rid};
    forall i | 0 <= i < |xs| && !stale[i] ensures TreeIndexes(less, after[i], KeyColumn(schema, xs[i].column)) {
      RemovedOk(rows, before[i], KeyColumn(schema, xs[i].column), rid);
    }
  }

  /** One more row stored: few shared keys at the end means few shared keys all along. */
  lemma {:induction false} SparedInsert(schema: Schema, xs: seq<IndexState>, mid: RowMap, rid: RecordId, row: Row,
                                        s0: seq<bool>, s1: seq<bool>, s2: seq<bool>)
    requires rid !in mid && |s0| == |s1| == |s2|
    requires Spared(schema, xs, mid, mid, s0, s1) && Spared(schema, xs, mid, mid, s1, s2)
    ensures Spared(schema, xs, mid[rid := row], mid[rid := row], s0, s2)
  {
    var after := mid[rid := row];
    forall i | 0 <= i < |s2| && !s0[i] && FewRows(after, KeyColumn(schema, xs[i].column)) ensures !s2[i] {
      FewerRows(mid, rid, row, KeyColumn(schema, xs[i].column));
    }
  }

  /** One more row rewritten: few shared keys at the start and at the end means few shared keys all along. */
  lemma {:induction false} SparedRewrite(schema: Schema, xs: seq<IndexState>, start: RowMap, mid: RowMap, after: RowMap,
                                         rid: RecordId, to: RecordId, ys: seq<Assignment>, s0: seq<bool>, s1: seq<bool>, s2: seq<bool>)
    requires KeysFall(start, mid, ys) && OneRewritten(mid, after, rid, to, ys) && |s0| == |s1| == |s2|
    requires forall i :: 0 <= i < |xs| ==> KeyColumn(schema, xs[i].column) < |mid[rid]|
    requires Spared(schema, xs, start, mid, s0, s1) && Spared(schema, xs, mid - {rid}, mid - {rid}, s1, s2)
    ensures Spared(schema, xs, start, after, s0, s2)
  {
    forall i | 0 <= i < |s2| && !s0[i] && FewRows(start, KeyColumn(schema, xs[i].column))
               && FewRows(after, KeyColumn(schema, xs[i].column))
      ensures !s2[i]
    {
      FewInBetween(start, mid, after, rid, to, ys, KeyColumn(schema, xs[i].column));
      FewWithoutOne(mid, rid, KeyColumn(schema, xs[i].column));
    }
  }

  /** A lost row makes those indexes stale that have a key for it. */
  ghost predicate LostFrom(schema: Schema, xs: seq<IndexState>, row: Row, before: seq<bool>, after: seq<bool>) {
    && |xs| == |before| == |after|
    && forall i :: 0 <= i < |xs| ==> after[i] == (before[i] || KeyOf(row, KeyColumn(schema, xs[i].column)).Some?)
  }

  /** After a row is lost from the table only, an index still agrees exactly if it has no key for it. */
  lemma {:induction false} LostRowAgreesIff(rows: RowMap, schema: Schema, xs: seq<IndexState>, ss: seq<State>,
                                            rid: RecordId, row: Row, stale: seq<bool>, stale2: seq<bool>)
    requires rid !in rows && Kept(rows[rid := row], schema, xs, ss, stale) && LostFrom(schema, xs, row, stale, stale2)
    ensures forall i :: 0 <= i < |xs| && !stale[i] ==>
              (TreeIndexes(rows, ss[i], KeyColumn(schema, xs[i].column)) <==> !stale2[i])
    ensures Kept(rows, schema, xs, ss, stale2)
  {
    forall i | 0 <= i < |xs| && !stale[i]
      ensures TreeIndexes(rows, ss[i], KeyColumn(schema, xs[i].column)) <==> !stale2[i]
    {
      LostRowIndexIff(rows, ss[i], KeyColumn(schema, xs[i].column), rid, row);
    }
  }

  /** One more index. */
  lemma {:induction false} OneMoreKept(rows: RowMap, schema: Schema, xs: seq<IndexState>, ss: seq<State>, stale: seq<bool>,
                                       x: IndexState, s: State, crowds: bool)
    requires Kept(rows, schema, xs, ss, stale) && (!crowds ==> TreeIndexes(rows, s, KeyColumn(schema, x.column)))
    ensures Kept(rows, schema, xs + [x], ss + [s], stale + [crowds]) && Worse(stale, stale + [crowds])
    ensures (FewRows(rows, KeyColumn(schema, x.column)) ==> !crowds) ==>
              Spared(schema, xs + [x], rows, rows, stale, stale + [crowds])
  {
  }

  /** The indexes as the planner sees them, and their trees. */
  function Descriptors(xs: seq<IndexState>): seq<Index> {
    seq(|xs|, i requires 0 <= i < |xs| => Index(xs[i].name, xs[i].column))
  }

  function TreeList(xs: seq<IndexState>): (r: seq<B.BPlusTree>)
    ensures |r| == |xs| && forall i :: 0 <= i < |xs| ==> r[i] == xs[i].tree
  {
    seq(|xs|, i requires 0 <= i < |xs| => xs[i].tree)
  }

  /** The indexes of a table, with their trees as values in `states`. */
  class IndexSet {
    const schema: Schema
    var indexes: seq<IndexState>
    ghost var trees: set<B.BPlusTree>
    ghost var states: seq<State>
    /** The indexes in which a key has gone to a leaf full of one key, or that have a key of a row that was lost. */
    ghost var stale: seq<bool>

    constructor (s: Schema)
      ensures Valid() && schema == s && indexes == [] && trees == {} && stale == []
    {
      schema, indexes, trees, states, stale := s, [], {}, [], [];
    }

    /** Every index has a column with keys and a tree of its own. */
    ghost predicate Valid()
      reads this, trees
    {
      && |states| == |stale| == |indexes|
      && (forall i :: 0 <= i < |indexes| ==> Keyed(schema, indexes[i].column))
      && (forall i :: 0 <= i < |indexes| ==> indexes[i].tree in trees)
      && (forall i :: 0 <= i < |indexes| ==> indexes[i].tree.Valid() && states[i] == indexes[i].tree.Abs())
      && (forall i, j :: 0 <= i < j < |indexes| ==> indexes[i].tree != indexes[j].tree)
    }

    /** Inserts the row's key into one tree, which is stale from then on if the key goes to a leaf full of one key. */
    method AddKey(i: nat, row: Row, rid: RecordId)
      requires Valid() && i < |indexes|
      modifies this`stale, this`states, indexes[i].tree
      ensures Valid()
      ensures states == old(states)[i := Added(old(states)[i], KeyColumn(schema, indexes[i].column), row, rid)]
      ensures stale == old(stale)[i := old(stale)[i] || Crowds(old(states)[i], KeyColumn(schema, indexes[i].column), row)]
    {
      var tree := indexes[i].tree;
      var col := KeyColumn(schema, indexes[i].column);
      stale := stale[i := stale[i] || Crowds(states[i], col, row)];
      InsertKey(tree, col, row, rid);
      states := states[i := tree.Abs()];
    }

    method RemoveKey(i: nat, row: Row, rid: RecordId)
      requires Valid() && i < |indexes|
      modifies this`states, indexes[i].tree
      ensures Valid()
      ensures states == old(states)[i := Removed(old(states)[i], KeyColumn(schema, indexes[i].column), row, rid)]
    {
      var tree := indexes[i].tree;
      DeleteKey(tree, KeyColumn(schema, indexes[i].column), row, rid);
      states := states[i := tree.Abs()];
    }

    method MaintainIndexesOnInsert(row: Row, rid: RecordId)
      requires Valid()
      modifies this`stale, this`states, trees
      ensures Valid()
      ensures KeysAdded(schema, indexes, old(states), states, row, rid, |indexes|)
      ensures Crowded(schema, indexes, old(states), row, old(stale), stale, |indexes|)
    {
      var i := 0;
      while i < |indexes|
        invariant i <= |indexes| && Valid()
        invariant KeysAdded(schema, indexes, old(states), states, row, rid, i)
        invariant Crowded(schema, indexes, old(states), row, old(stale), stale, i)
      {
        AddedOneMore(schema, indexes, old(states), states, row, rid, i);
        AddKey(i, row, rid);
        i := i + 1;
      }
    }

    method MaintainIndexesOnDelete(row: Row, rid: RecordId)
      requires Valid()
      modifies this`states, trees
      ensures Valid()
      ensures KeysRemoved(schema, indexes, old(states), states, row, rid, |indexes|)
    {
      var i := 0;
      while i < |indexes|
        invariant i <= |indexes| && Valid()
        invariant KeysRemoved(schema, indexes, old(states), states, row, rid, i)
      {
        RemovedOneMore(schema, indexes, old(states), states, row, rid, i);
        RemoveKey(i, row, rid);
        i := i + 1;
      }
    }

    /** Indexes that agreed before a row was added agree after, unless a leaf is crowded; few shared keys crowd none. */
    method IndexRow(row: Row, rid: RecordId, ghost before: RowMap)
      requires Valid() && rid !in before && Kept(before, schema, indexes, states, stale)
      modifies this`stale, this`states, trees
      ensures Valid() && Kept(before[rid := row], schema, indexes, states, stale)
      ensures Spared(schema, indexes, before, before, old(stale), stale) && Worse(old(stale), stale)
    {
      ghost var ss, flags := states, stale;
      MaintainIndexesOnInsert(row, rid);
      AllAddedIff(before, schema, indexes, ss, states, row, rid, flags, stale);
    }

    method UnindexRow(row: Row, rid: RecordId, ghost before: RowMap)
      requires Valid() && rid in before && before[rid] == row && Kept(before, schema, indexes, states, stale)
      modifies this`states, trees
      ensures Valid() && Kept(before - {rid}, schema, indexes, states, stale)
    {
      ghost var ss := states;
      MaintainIndexesOnDelete(row, rid);
      AllRemovedOk(before, schema, indexes, ss, states, rid, stale);
    }

    /** Takes the old key of a row out and puts the new one in. */
    method MoveKeys(x: Tuple, row: Row, to: RecordId, ghost before: RowMap)
      requires Valid() && x.rid in before && before[x.rid] == x.values && to !in before - {x.rid}
      requires Kept(before, schema, indexes, states, stale)
      modifies this`stale, this`states, trees
      ensures Valid() && Kept((before - {x.rid})[to := row], schema, indexes, states, stale)
      ensures Spared(schema, indexes, before - {x.rid}, before - {x.rid}, old(stale), stale) && Worse(old(stale), stale)
    {
      UnindexRow(x.values, x.rid, before);
      IndexRow(row, to, before - {x.rid});
    }

    /** Records that a row is gone from the table while the trees keep its keys. */
    ghost method MarkLost(x: Tuple, before: RowMap)
      requires Valid() && x.rid in before && before[x.rid] == x.values && Kept(before, schema, indexes, states, stale)
      modifies this`stale
      ensures Valid() && Kept(before - {x.rid}, schema, indexes, states, stale)
      ensures LostFrom(schema, indexes, x.values, old(stale), stale)
    {
      ghost var flags := stale;
      stale := seq(|indexes|, i requires 0 <= i < |flags| && 0 <= i < |indexes| reads this =>
                     flags[i] || KeyOf(x.values, KeyColumn(schema, indexes[i].column)).Some?);
      assert (before - {x.rid})[x.rid := x.values] == before;
      LostRowAgreesIff(before - {x.rid}, schema, indexes, states, x.rid, x.values, flags, stale);
    }

    /** Adds an index with a tree built elsewhere. */
    method Register(name: string, column: string, tree: B.BPlusTree, ghost crowds: bool)
      requires Valid() && Keyed(schema, column) && tree.Valid() && tree !in trees
      modifies this
      ensures Valid() && trees == old(trees) + {tree} && stale == old(stale) + [crowds]
      ensures indexes == old(indexes) + [IndexState(name, column, tree)] && states == old(states) + [tree.Abs()]
    {
      indexes := indexes + [IndexState(name, column, tree)];
      states := states + [tree.Abs()];
      trees := trees + {tree};
      stale := stale + [crowds];
    }

    method NameUsed(name: string) returns (used: bool)
      ensures used == NameIn(indexes, name)
    {
      used := false;
      var i := 0;
      while i < |indexes|
        invariant i <= |indexes|
        invariant used <==> exists j :: 0 <= j < i && indexes[j].name == name
      {
        if indexes[i].name == name {
          used := true;
        }
        i := i + 1;
      }
    }

    lemma {:induction false} Fits()
      requires Valid()
      ensures Scan.IndexesFit(Descriptors(indexes), TreeList(indexes))
    {
    }

    /** An index that is not stale is what an index scan relies on. */
    lemma {:induction false} ServesScans(t: Table, rows: RowMap, i: nat)
      requires Valid() && Kept(rows, schema, indexes, states, stale) && Lists(t, rows) && i < |indexes| && !stale[i]
      ensures Scan.IndexAgrees(t, schema, Descriptors(indexes)[i], TreeList(indexes)[i])
    {
      KeptIndexServesScans(t, rows, Flat(states[i].tree), KeyColumn(schema, indexes[i].column));
    }
  }

  /* ---------- What statements do ---------- */

  /** The rows before the first refused one are stored; on success that is all of them. */
  ghost predicate InsertDone(schema: Schema, encode: Encoder, columns: seq<string>, values: seq<Row>, before: RowMap,
                             after: RowMap, result: Result<nat>, placed: seq<RecordId>, stored: seq<Row>) {
    match TargetsOf(schema, columns)
    case Failure(st) => result == Failure(st) && after == before
    case Success(targets) =>
      && Inserted(schema, targets, before, after, values, placed, stored)
      && if result.Success? then result.value == |values| == |placed|
         else |placed| < |values| && !Insertable(schema, targets, encode, values[|placed|])
  }

  /** The matching rows are rewritten, or those before the first refused one, which is lost if its new form fits on no page. */
  ghost predicate UpdateDone(schema: Schema, encode: Encoder, clauses: seq<SetClause>, where: Option<Expr>, before: RowMap,
                             after: RowMap, result: Result<nat>, matches: Table, xs: seq<Assignment>, moved: seq<RecordId>,
                             lost: Option<Tuple>) {
    && (if ClausesOk(schema, clauses) then Matches(matches, before, where, schema) && AssignmentsFor(schema, clauses, xs)
        else result.Failure? && after == before && moved == [])
    && UpdatedTo(before, after, matches, xs, moved, lost)
    && (lost.Some? <==> result == Failure(OutOfSpace))
    && (result.Failure? && ClausesOk(schema, clauses) ==>
          |moved| < |matches| && !Storable(encode, AssignAll(matches[|moved|].values, xs)))
    && (result.Success? ==> result.value == |moved| == |matches|)
  }

  ghost predicate DeleteDone(schema: Schema, where: Option<Expr>, before: RowMap, after: RowMap, result: Result<nat>, matches: Table) {
    Matches(matches, before, where, schema) && result == Success(|matches|) && Deleted(before, after, matches, |matches|)
  }

  ghost predicate CreateDone(schema: Schema, name: string, column: string, taken: set<string>, before: seq<IndexState>,
                             after: seq<IndexState>, status: Status) {
    && status == (if !Keyed(schema, column) then InvalidArgument
                  else if name in taken || NameIn(before, name) then AlreadyExists else Ok)
    && if status == Ok then Extended(before, after, name, column) else after == before
  }

  datatype Statement =
    | Insert(columns: seq<string>, values: seq<Row>)
    | Update(clauses: seq<SetClause>, where: Option<Expr>)
    | Delete(where: Option<Expr>)
    | CreateIndex(name: string, column: string, taken: set<string>, firstFree: nat)

  /** The rows and the indexes at one point of a run. */
  datatype Point = Point(rows: RowMap, indexes: seq<IndexState>)

  /** What one statement does to the rows and the list of indexes, and what it returns. */
  ghost predicate Done(schema: Schema, encode: Encoder, stmt: Statement, a: Point, b: Point, result: Result<nat>) {
    match stmt
    case Insert(columns, values) =>
      && b.indexes == a.indexes
      && exists placed, stored :: InsertDone(schema, encode, columns, values, a.rows, b.rows, result, placed, stored)
    case Update(clauses, where) =>
      && b.indexes == a.indexes
      && exists matches, xs, moved, lost ::
           UpdateDone(schema, encode, clauses, where, a.rows, b.rows, result, matches, xs, moved, lost)
    case Delete(where) =>
      b.indexes == a.indexes && exists matches :: DeleteDone(schema, where, a.rows, b.rows, result, matches)
    case CreateIndex(name, column, taken, _) =>
      && b.rows == a.rows
      && CreateDone(schema, name, column, taken, a.indexes, b.indexes, if result.Success? then Ok else result.status)
  }

  /** The statement lost a row: an UPDATE that ran out of space. */
  predicate Loses(stmt: Statement, result: Result<nat>) {
    stmt.Update? && result == Failure(OutOfSpace)
  }

  /** Every statement does its work between two points of the trace. */
  ghost predicate RunDone(schema: Schema, encode: Encoder, stmts: seq<Statement>, results: seq<Result<nat>>, trace: seq<Point>) {
    && |results| <= |stmts| && |trace| == |results| + 1
    && forall n :: 0 <= n < |results| ==> Done(schema, encode, stmts[n], trace[n], trace[n + 1], results[n])
  }

  ghost predicate NoneLoses(stmts: seq<Statement>, results: seq<Result<nat>>)
    requires |results| <= |stmts|
  {
    forall n :: 0 <= n < |results| ==> !Loses(stmts[n], results[n])
  }

  /** At no point of the trace is a key of the column shared by as many rows as a leaf holds. */
  ghost predicate FewThroughout(trace: seq<Point>, col: nat) {
    forall n :: 0 <= n < |trace| ==> FewRows(trace[n].rows, col)
  }

  /** An index that was not stale at the start, or was created later, is not stale now if its column had few shared keys throughout. */
  ghost predicate FreshIfFew(schema: Schema, xs: seq<IndexState>, trace: seq<Point>, before: seq<bool>, after: seq<bool>) {
    && |before| <= |after| <= |xs|
    && forall i :: 0 <= i < |after| && (i < |before| ==> !before[i]) && FewThroughout(trace, KeyColumn(schema, xs[i].column)) ==>
         !after[i]
  }

  lemma {:induction false} RunOneMore(schema: Schema, encode: Encoder, stmts: seq<Statement>, results: seq<Result<nat>>,
                                      trace: seq<Point>, result: Result<nat>, b: Point)
    requires RunDone(schema, encode, stmts, results, trace) && |results| < |stmts|
    requires Done(schema, encode, stmts[|results|], trace[|results|], b, result)
    ensures RunDone(schema, encode, stmts, results + [result], trace + [b])
  {
    var rs, tr := results + [result], trace + [b];
    forall n | 0 <= n < |rs| ensures Done(schema, encode, stmts[n], tr[n], tr[n + 1], rs[n]) {
      assert n < |results| ==> tr[n] == trace[n] && tr[n + 1] == trace[n + 1];
    }
  }

  lemma {:induction false} FreshOneMore(schema: Schema, xs: seq<IndexState>, ys: seq<IndexState>, trace: seq<Point>, b: Point,
                                        s0: seq<bool>, s1: seq<bool>, s2: seq<bool>)
    requires |trace| > 0 && FreshIfFew(schema, xs, trace, s0, s1) && Spared(schema, ys, trace[|trace| - 1].rows, b.rows, s1, s2)
    requires |s1| == |xs| <= |ys| == |s2| && xs == ys[..|xs|]
    ensures FreshIfFew(schema, ys, trace + [b], s0, s2)
  {
    var tr := trace + [b];
    forall i | 0 <= i < |s2| && (i < |s0| ==> !s0[i]) && FewThroughout(tr, KeyColumn(schema, ys[i].column)) ensures !s2[i] {
      var col := KeyColumn(schema, ys[i].column);
      assert forall n :: 0 <= n < |trace| ==> tr[n] == trace[n];
      assert FewThroughout(trace, col);
      assert FewRows(tr[|trace| - 1].rows, col) && FewRows(tr[|trace|].rows, col);
      assert i < |s1| ==> ys[i] == xs[i];
    }
  }

  class TableExecutor {
    const schema: Schema
    const store: RecordManager
    const ix: IndexSet

    constructor (s: Schema, m: RecordManager)
      requires m.Valid() && AllRowsFit(m.rows, s)
      ensures schema == s && store == m && Valid() && fresh(ix) && ix.indexes == [] && ix.trees == {}
    {
      schema, store := s, m;
      ix := new IndexSet(s);
    }

    /** Every index that is not stale agrees with the rows. */
    ghost predicate Valid()
      reads this, store, ix, ix.trees
    {
      && store.Valid() && AllRowsFit(store.rows, schema) && ix.Valid() && ix.schema == schema
      && Kept(store.rows, schema, ix.indexes, ix.states, ix.stale)
    }

    ghost predicate SameIndexes(xs: seq<IndexState>, ts: set<B.BPlusTree>)
      reads ix
    {
      ix.indexes == xs && ix.trees == ts
    }

    /**
     Stores rows one after another. The rows before the first refused one are stored under ids
     that were not in use; on success that is all of them. No index becomes stale while no key
     of its column is shared by as many rows as a leaf holds.
     */
    method ExecuteInsert(columns: seq<string>, values: seq<Row>)
      returns (result: Result<nat>, ghost placed: seq<RecordId>, ghost stored: seq<Row>)
      requires Valid()
      modifies this, store, ix, ix.trees
      ensures Valid() && SameIndexes(old(ix.indexes), old(ix.trees)) && Worse(old(ix.stale), ix.stale)
      ensures Spared(schema, ix.indexes, store.rows, store.rows, old(ix.stale), ix.stale)
      ensures InsertDone(schema, store.encode, columns, values, old(store.rows), store.rows, result, placed, stored)
    {
      placed, stored := [], [];
      var targets := TargetColumns(schema, columns);
      if targets.Failure? {
        return Failure(targets.status), [], [];
      }
      var n := 0;
      while n < |values|
        invariant n == |placed| <= |values| && Valid()
        invariant SameIndexes(old(ix.indexes), old(ix.trees)) && Worse(old(ix.stale), ix.stale)
        invariant Spared(schema, ix.indexes, store.rows, store.rows, old(ix.stale), ix.stale)
        invariant Inserted(schema, targets.value, old(store.rows), store.rows, values, placed, stored)
      {
        ghost var before, flags := store.rows, ix.stale;
        var rid; ghost var row;
        rid, row := InsertOne(targets.value, values[n]);
        if rid.Failure? {
          return Failure(rid.status), placed, stored;
        }
        SparedInsert(schema, ix.indexes, before, rid.value, row, old(ix.stale), flags, ix.stale);
        InsertedOneMore(schema, targets.value, old(store.rows), before, values, placed, stored, rid.value, row);
        placed, stored := placed + [rid.value], stored + [row];
        n := n + 1;
      }
      result := Success(n);
    }

    /** Stores one row and its index entries. */
    method InsertOne(targets: seq<nat>, literals: Row) returns (rid: Result<RecordId>, ghost row: Row)
      requires Valid()
      modifies this, store, ix, ix.trees
      ensures Valid() && SameIndexes(old(ix.indexes), old(ix.trees)) && Worse(old(ix.stale), ix.stale)
      ensures Spared(schema, ix.indexes, old(store.rows), old(store.rows), old(ix.stale), ix.stale)
      ensures rid.Success? <==> Insertable(schema, targets, store.encode, literals)
      ensures if rid.Success? then
                && RowFor(schema, targets, literals) == Success(row) && rid.value !in old(store.rows)
                && store.rows == old(store.rows)[rid.value := row]
              else store.rows == old(store.rows) && ix.stale == old(ix.stale)
    {
      row := [];
      if |literals| != |targets| || !(forall i :: 0 <= i < |targets| ==> targets[i] < |schema|) {
        return Failure(InvalidArgument), [];
      }
      var built := BuildRow(schema, targets, literals);
      if built.Failure? {
        return Failure(built.status), [];
      }
      row := built.value;
      ghost var before := store.rows;
      rid := store.InsertRow(built.value);
      if rid.Success? {
        ix.IndexRow(built.value, rid.value, before);
      }
    }

    /**
     Rewrites every row the clause picks, in the state before the statement, exactly once even
     when rows move. A statement that fails part-way has rewritten the rows before. A row is lost
     if its new form fits on no page, and makes the indexes stale that have a key for it. No
     other index becomes stale if no key of its column is shared by as many rows as a leaf holds,
     neither before the statement nor after it.
     */
    method ExecuteUpdate(clauses: seq<SetClause>, where: Option<Expr>)
      returns (result: Result<nat>, ghost matches: Table, ghost xs: seq<Assignment>, ghost moved: seq<RecordId>,
               ghost lost: Option<Tuple>, ghost flags: seq<bool>)
      requires Valid()
      modifies this, store, ix, ix.trees
      ensures Valid() && SameIndexes(old(ix.indexes), old(ix.trees)) && Worse(old(ix.stale), ix.stale)
      ensures UpdateDone(schema, store.encode, clauses, where, old(store.rows), store.rows, result, matches, xs, moved, lost)
      ensures StaleAfter(old(store.rows), lost, old(ix.stale), flags)
    {
      matches, xs, moved, lost, flags := [], [], [], None, ix.stale;
      var prepared := Assignments(schema, clauses);
      if prepared.Failure? {
        return Failure(prepared.status), [], [], [], None, ix.stale;
      }
      xs := prepared.value;
      var t := store.Scan();
      var found := CollectMatches(t, where, schema);
      matches := found;
      PickedMatches(t, store.rows, where, schema);
      NothingRewritten(store.rows, found, xs, where, schema);
      forall k | 0 <= k < |found| ensures RowFits(AssignAll(found[k].values, xs), schema) {
        assert found[k] in found;
        AssignedFits(found[k].values, clauses, xs, schema, |xs|);
        assert xs[..|xs|] == xs;
      }
      result, moved, lost, flags := RewriteMatches(found, prepared.value);
    }

    /**
     How an UPDATE leaves the stale marks: `flags` without the lost row, for which the indexes
     agree with the table as it was with that row.
     */
    ghost predicate StaleAfter(start: RowMap, lost: Option<Tuple>, before: seq<bool>, flags: seq<bool>)
      reads this, store, ix, ix.trees
    {
      match lost
      case None => flags == ix.stale && Spared(schema, ix.indexes, start, store.rows, before, flags)
      case Some(x) =>
        && LostFrom(schema, ix.indexes, x.values, flags, ix.stale) && x.rid !in store.rows
        && var all := store.rows[x.rid := x.values];
           Kept(all, schema, ix.indexes, ix.states, flags) && Spared(schema, ix.indexes, start, all, before, flags)
    }

    /** Rewrites the rows one after another until one is refused. */
    method RewriteMatches(found: Table, xs: seq<Assignment>)
      returns (result: Result<nat>, ghost moved: seq<RecordId>, ghost lost: Option<Tuple>, ghost flags: seq<bool>)
      requires Valid() && Distinct(found) && Midway(store.rows, store.rows, found, [], xs)
      requires forall k :: 0 <= k < |found| ==> RowFits(AssignAll(found[k].values, xs), schema)
      modifies this, store, ix, ix.trees
      ensures Valid() && SameIndexes(old(ix.indexes), old(ix.trees)) && Worse(old(ix.stale), ix.stale)
      ensures UpdatedTo(old(store.rows), store.rows, found, xs, moved, lost)
      ensures if result.Success? then result.value == |moved| == |found|
              else |moved| < |found| && !Storable(store.encode, AssignAll(found[|moved|].values, xs))
      ensures lost.Some? <==> result == Failure(OutOfSpace)
      ensures StaleAfter(old(store.rows), lost, old(ix.stale), flags)
    {
      moved, lost, flags := [], None, ix.stale;
      ghost var start := store.rows;
      var n := 0;
      while n < |found|
        invariant n == |moved| <= |found| && lost == None && Valid() && flags == ix.stale
        invariant SameIndexes(old(ix.indexes), old(ix.trees)) && Worse(old(ix.stale), ix.stale)
        invariant Midway(start, store.rows, found, moved, xs)
        invariant Spared(schema, ix.indexes, start, store.rows, old(ix.stale), ix.stale)
      {
        var r; ghost var gone;
        r, gone := RewriteNext(n, found, xs, start, moved, old(ix.stale));
        if r.Failure? {
          return Failure(r.status), moved, gone, flags;
        }
        moved, flags := moved + [r.value], ix.stale;
        n := n + 1;
      }
      result := Success(n);
    }

    /** Rewrites the next row, which is still where the scan found it. */
    method RewriteNext(n: nat, found: Table, xs: seq<Assignment>, ghost start: RowMap, ghost moved: seq<RecordId>,
                       ghost s0: seq<bool>)
      returns (r: Result<RecordId>, ghost gone: Option<Tuple>)
      requires Valid() && Distinct(found) && n == |moved| < |found| && Midway(start, store.rows, found, moved, xs)
      requires RowFits(AssignAll(found[n].values, xs), schema)
      requires |s0| == |ix.stale| && Spared(schema, ix.indexes, start, store.rows, s0, ix.stale)
      modifies this, store, ix, ix.trees
      ensures Valid() && SameIndexes(old(ix.indexes), old(ix.trees)) && Worse(old(ix.stale), ix.stale)
      ensures r.Success? ==>
                && gone.None? && Midway(start, store.rows, found, moved + [r.value], xs)
                && Spared(schema, ix.indexes, start, store.rows, s0, ix.stale)
      ensures r.Failure? ==>
                && UpdatedTo(start, store.rows, found, xs, moved, gone) && (gone.Some? <==> r == Failure(OutOfSpace))
                && !Storable(store.encode, AssignAll(found[n].values, xs)) && StaleAfter(start, gone, s0, old(ix.stale))
    {
      ghost var mid, s1 := store.rows, ix.stale;
      var row := Apply(found[n].values, xs);
      NextWaits(start, mid, found, moved, xs);
      r, gone := UpdateOne(found[n], row);
      if r.Success? {
        RewriteOne(start, mid, found, moved, xs, r.value);
        KeysFallOneMore(start, mid, store.rows, found[n].rid, r.value, xs);
        KeyedColumns(schema, ix.indexes);
        SparedRewrite(schema, ix.indexes, start, mid, store.rows, found[n].rid, r.value, xs, s0, s1, ix.stale);
      } else if gone.Some? {
        assert store.rows[gone.value.rid := gone.value.values] == mid;
      }
    }

    /** Rewrites one row and moves its index entries; the row is lost if its new form fits on no page. */
    method UpdateOne(x: Tuple, row: Row) returns (r: Result<RecordId>, ghost gone: Option<Tuple>)
      requires Valid() && x.rid in store.rows && store.rows[x.rid] == x.values && RowFits(row, schema)
      modifies this, store, ix, ix.trees
      ensures Valid() && SameIndexes(old(ix.indexes), old(ix.trees)) && Worse(old(ix.stale), ix.stale)
      ensures match r
              case Success(to) =>
                && gone == None && (to == x.rid || to !in old(store.rows))
                && store.rows == (old(store.rows) - {x.rid})[to := row]
                && Spared(schema, ix.indexes, old(store.rows) - {x.rid}, old(store.rows) - {x.rid}, old(ix.stale), ix.stale)
              case Failure(OutOfSpace) =>
                && gone == Some(x) && store.rows == old(store.rows) - {x.rid}
                && LostFrom(schema, ix.indexes, x.values, old(ix.stale), ix.stale)
                && Kept(old(store.rows), schema, ix.indexes, ix.states, old(ix.stale))
              case Failure(_) => gone == None && store.rows == old(store.rows) && ix.stale == old(ix.stale)
      ensures r.Failure? ==> !Storable(store.encode, row)
    {
      ghost var before := store.rows;
      r := store.UpdateRow(x.rid, row);
      gone := if r == Failure(OutOfSpace) then Some(x) else None;
      if r.Success? {
        ix.MoveKeys(x, row, r.value, before);
      }
      if gone.Some? {
        ix.MarkLost(x, before);
      }
    }

    /** Removes every row the clause picks, and its index entries; no index becomes stale. */
    method ExecuteDelete(where: Option<Expr>) returns (result: Result<nat>, ghost matches: Table)
      requires Valid()
      modifies this, store, ix, ix.trees
      ensures Valid() && SameIndexes(old(ix.indexes), old(ix.trees)) && ix.stale == old(ix.stale)
      ensures DeleteDone(schema, where, old(store.rows), store.rows, result, matches)
    {
      var t := store.Scan();
      var found := CollectMatches(t, where, schema);
      matches := found;
      PickedMatches(t, store.rows, where, schema);
      ghost var start := store.rows;
      var n := 0;
      while n < |found|
        invariant n <= |found| && matches == found && Valid()
        invariant SameIndexes(old(ix.indexes), old(ix.trees)) && ix.stale == old(ix.stale)
        invariant Deleted(start, store.rows, found, n)
      {
        NextNotDeleted(start, store.rows, found, n, where, schema);
        ghost var before := store.rows;
        var status := DeleteOne(found[n]);
        if status != Ok {
          return Failure(status), matches;
        }
        DeletedOneMore(start, before, found, n);
        n := n + 1;
      }
      result := Success(n);
    }

    /** Removes one row and its index entries. */
    method DeleteOne(x: Tuple) returns (status: Status)
      requires Valid() && x.rid in store.rows && store.rows[x.rid] == x.values
      modifies this, store, ix, ix.trees
      ensures Valid() && SameIndexes(old(ix.indexes), old(ix.trees)) && ix.stale == old(ix.stale)
      ensures status == Ok && store.rows == old(store.rows) - {x.rid}
    {
      ghost var before := store.rows;
      status := store.DeleteRow(x.rid);
      if status == Ok {
        ix.UnindexRow(x.values, x.rid, before);
      }
    }

    /** Builds an index over the rows there are; it is registered unless its name is taken. */
    method ExecuteCreateIndex(name: string, column: string, taken: set<string>, firstFree: nat) returns (status: Status)
      requires Valid()
      modifies ix
      ensures Valid() && fresh(ix.trees - old(ix.trees)) && Worse(old(ix.stale), ix.stale)
      ensures Spared(schema, ix.indexes, store.rows, store.rows, old(ix.stale), ix.stale)
      ensures CreateDone(schema, name, column, taken, old(ix.indexes), ix.indexes, status)
      ensures status == Ok ==>
                && fresh(ix.indexes[|old(ix.indexes)|].tree)
                && Indexed(store.rows, multiset(Flat(ix.indexes[|old(ix.indexes)|].tree.tree)), KeyColumn(schema, column))
    {
      var col := IndexOf(schema, column);
      if col.None? {
        return InvalidArgument;
      }
      if schema[col.value].ctype != TInt && schema[col.value].ctype != TBigInt {
        return InvalidArgument;
      }
      status := BuildIndex(name, column, taken, firstFree);
    }

    /** The index is built before its name is looked at. */
    method BuildIndex(name: string, column: string, taken: set<string>, firstFree: nat) returns (status: Status)
      requires Valid() && Keyed(schema, column)
      modifies ix
      ensures Valid() && fresh(ix.trees - old(ix.trees)) && Worse(old(ix.stale), ix.stale)
      ensures Spared(schema, ix.indexes, store.rows, store.rows, old(ix.stale), ix.stale)
      ensures CreateDone(schema, name, column, taken, old(ix.indexes), ix.indexes, status)
      ensures status == Ok ==>
                && fresh(ix.indexes[|old(ix.indexes)|].tree)
                && Indexed(store.rows, multiset(Flat(ix.indexes[|old(ix.indexes)|].tree.tree)), KeyColumn(schema, column))
    {
      var tree; ghost var crowds;
      tree, crowds := FillTree(KeyColumn(schema, column), firstFree);
      var used := ix.NameUsed(name);
      if name in taken || used {
        return AlreadyExists;
      }
      AddIndex(name, column, tree, crowds);
      status := Ok;
    }

    /** Fills a new tree from a scan of the rows. */
    method FillTree(col: nat, firstFree: nat) returns (tree: B.BPlusTree, ghost crowds: bool)
      requires Valid()
      ensures fresh(tree) && tree.Valid() && Filled(store.rows, tree.Abs(), col, crowds)
      ensures FewRows(store.rows, col) ==> !crowds
    {
      var t := store.Scan();
      tree, crowds := BuildTree(t, col, firstFree);
      AllRows(t, store.rows);
    }

    /** Registers a tree filled from the rows. */
    method AddIndex(name: string, column: string, tree: B.BPlusTree, ghost crowds: bool)
      requires Valid() && Keyed(schema, column) && tree.Valid() && tree !in ix.trees
      requires Filled(store.rows, tree.Abs(), KeyColumn(schema, column), crowds)
      requires FewRows(store.rows, KeyColumn(schema, column)) ==> !crowds
      modifies ix
      ensures Valid() && ix.trees == old(ix.trees) + {tree} && Worse(old(ix.stale), ix.stale)
      ensures ix.indexes == old(ix.indexes) + [IndexState(name, column, tree)]
      ensures Spared(schema, ix.indexes, store.rows, store.rows, old(ix.stale), ix.stale)
    {
      OneMoreKept(store.rows, schema, ix.indexes, ix.states, ix.stale, IndexState(name, column, tree), tree.Abs(), crowds);
      ix.Register(name, column, tree, crowds);
    }

    /**
     One statement, successful or not: the rows and the indexes are changed as the statement says,
     and unless it loses a row, no index becomes stale if no key of its column is shared by as
     many rows as a leaf holds, neither before nor after.
     */
    method Execute(stmt: Statement) returns (result: Result<nat>)
      requires Valid()
      modifies this, store, ix, ix.trees
      ensures Valid() && fresh(ix.trees - old(ix.trees)) && Worse(old(ix.stale), ix.stale)
      ensures Done(schema, store.encode, stmt, old(Point(store.rows, ix.indexes)), Point(store.rows, ix.indexes), result)
      ensures |old(ix.indexes)| <= |ix.indexes| && ix.indexes[..|old(ix.indexes)|] == old(ix.indexes)
      ensures !Loses(stmt, result) ==> Spared(schema, ix.indexes, old(store.rows), store.rows, old(ix.stale), ix.stale)
      ensures stmt.Delete? ==> ix.stale == old(ix.stale)
    {
      match stmt
      case Insert(columns, values) =>
        ghost var placed, stored;
        result, placed, stored := ExecuteInsert(columns, values);
      case Update(clauses, where) =>
        ghost var matches, xs, moved, lost, flags;
        result, matches, xs, moved, lost, flags := ExecuteUpdate(clauses, where);
      case Delete(where) =>
        ghost var matches;
        result, matches := ExecuteDelete(where);
      case CreateIndex(name, column, taken, firstFree) =>
        var s := ExecuteCreateIndex(name, column, taken, firstFree);
        result := if s == Ok then Success(0) else Failure(s);
    }

    /**
     Every sequence of statements, failing ones included. Each does its work between two points of
     the trace, which begins and ends with the rows there were and are. If no statement loses a
     row, an index that was not stale before is in the end what index scans rely on, provided
     that no key of its column is shared by as many rows as a leaf holds at any point.
     */
    method ExecuteAll(stmts: seq<Statement>) returns (results: seq<Result<nat>>, ghost trace: seq<Point>)
      requires Valid()
      modifies this, store, ix, ix.trees
      ensures Valid() && fresh(ix.trees - old(ix.trees)) && Worse(old(ix.stale), ix.stale)
      ensures |results| == |stmts| && RunDone(schema, store.encode, stmts, results, trace)
      ensures trace[0] == old(Point(store.rows, ix.indexes)) && trace[|stmts|] == Point(store.rows, ix.indexes)
      ensures NoneLoses(stmts, results) ==> FreshIfFew(schema, ix.indexes, trace, old(ix.stale), ix.stale)
      ensures forall t, i :: Lists(t, store.rows) && 0 <= i < |ix.indexes| && !ix.stale[i] ==>
                Scan.IndexAgrees(t, schema, Descriptors(ix.indexes)[i], TreeList(ix.indexes)[i])
      ensures true !in ix.stale ==> forall t :: Lists(t, store.rows) ==>
                Scan.IndexesAgree(t, schema, Descriptors(ix.indexes), TreeList(ix.indexes))
    {
      results, trace := [], [Point(store.rows, ix.indexes)];
      var n := 0;
      while n < |stmts|
        invariant n == |results| <= |stmts| && Valid() && fresh(ix.trees - old(ix.trees)) && Worse(old(ix.stale), ix.stale)
        invariant RunDone(schema, store.encode, stmts, results, trace)
        invariant trace[0] == old(Point(store.rows, ix.indexes)) && trace[n] == Point(store.rows, ix.indexes)
        invariant NoneLoses(stmts, results) ==> FreshIfFew(schema, ix.indexes, trace, old(ix.stale), ix.stale)
      {
        ghost var xs, s1 := ix.indexes, ix.stale;
        var result := Execute(stmts[n]);
        ghost var b := Point(store.rows, ix.indexes);
        RunOneMore(schema, store.encode, stmts, results, trace, result, b);
        if NoneLoses(stmts, results + [result]) {
          NoneLosesFirst(stmts, results, result);
          FreshOneMore(schema, xs, ix.indexes, trace, b, old(ix.stale), s1, ix.stale);
        }
        results, trace := results + [result], trace + [b];
        n := n + 1;
      }
      forall t, i | Lists(t, store.rows) && 0 <= i < |ix.indexes| && !ix.stale[i]
        ensures Scan.IndexAgrees(t, schema, Descriptors(ix.indexes)[i], TreeList(ix.indexes)[i])
      {
        ix.ServesScans(t, store.rows, i);
      }
    }

    /** The index that a clause would be answered with, if any, is not stale. */
    ghost predicate ChoosesFresh(where: Expr)
      reads this, ix
    {
      match Plan(Some(where), Descriptors(ix.indexes))
      case None => true
      case Some(c) => c.index < |ix.stale| == |ix.indexes| && !ix.stale[c.index]
    }

    /**
     The filtered rows of a SELECT on the table. If the index chosen for it is not stale they are
     the rows that the filtered table scan returns, exactly when no accepted row is out of reach
     of the index.
     */
    method ExecuteSelect(where: Expr) returns (rows: Result<seq<Tuple>>, ghost t: Table)
      requires Valid()
      ensures Lists(t, store.rows) && RowsFit(t, schema)
      ensures FilterAll(t, Some(where), schema).Success? ==> rows.Success?
      ensures FilterAll(t, Some(where), schema).Success? && ChoosesFresh(where) ==>
                (multiset(rows.value) == multiset(FilterAll(t, Some(where), schema).value)
                 <==> Scan.NoneLost(t, schema, where, Descriptors(ix.indexes)))
    {
      var all := store.Scan();
      t := all;
      ScannedFit(all, store.rows, schema);
      ix.Fits();
      if ChoosesFresh(where) && Plan(Some(where), Descriptors(ix.indexes)).Some? {
        ix.ServesScans(all, store.rows, Plan(Some(where), Descriptors(ix.indexes)).value.index);
      }
      rows := Scan.SelectRows(all, schema, where, Descriptors(ix.indexes), TreeList(ix.indexes));
    }
  }

  lemma {:induction false} NoneLosesFirst(stmts: seq<Statement>, results: seq<Result<nat>>, result: Result<nat>)
    requires |results| < |stmts| && NoneLoses(stmts, results + [result])
    ensures NoneLoses(stmts, results) && !Loses(stmts[|results|], result)
  {
    var all := results + [result];
    assert forall n :: 0 <= n < |results| ==> all[n] == results[n];
    assert all[|results|] == result;
  }

  /** Index columns lie within the rows of the table. */
  lemma {:induction false} KeyedColumns(schema: Schema, xs: seq<IndexState>)
    requires forall i :: 0 <= i < |xs| ==> Keyed(schema, xs[i].column)
    ensures forall i :: 0 <= i < |xs| ==> KeyColumn(schema, xs[i].column) < |schema|
  {
  }

  /** The first `n` rows of `m` are gone and every other row is as before. */
  ghost predicate Deleted(before: RowMap, after: RowMap, m: Table, n: nat)
    requires n <= |m|
  {
    && (forall rid :: rid in after <==> rid in before && !IdIn(m, n, rid))
    && (forall rid :: rid in after ==> after[rid] == before[rid])
  }

  lemma {:induction false} NextNotDeleted(before: RowMap, after: RowMap, m: Table, n: nat, where: Option<Expr>, schema: Schema)
    requires n < |m| && Deleted(before, after, m, n) && Matches(m, before, where, schema)
    ensures m[n].rid in after && after[m[n].rid] == m[n].values
  {
    assert m[n] in m;
    assert !IdIn(m, n, m[n].rid);
  }

  lemma {:induction false} DeletedOneMore(before: RowMap, mid: RowMap, m: Table, n: nat)
    requires n < |m| && Deleted(before, mid, m, n)
    ensures Deleted(before, mid - {m[n].rid}, m, n + 1)
  {
    var after := mid - {m[n].rid};
    forall rid ensures rid in after <==> rid in before && !IdIn(m, n + 1, rid) {
      assert IdIn(m, n + 1, rid) <==> IdIn(m, n, rid) || m[n].rid == rid;
    }
  }
}
