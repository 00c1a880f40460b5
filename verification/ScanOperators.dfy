/**
 The scan and filter operators of a SELECT, pulling one tuple at a time, and the choice of
 the scan. A query's rows are proved to be the filtered table or the filtered index scan.
 */
module ScanOperators {
  import opened Types
  import opened Values
  import opened ExprEval
  import opened BPlusTreeModel
  import Search = BPlusTreeSearch
  import B = BPlusTree
  import opened Planner
  import opened IndexScan

  /** Reads the whole table when opened, then hands it out. */
  class SeqScanOperator {
    const table: Table
    var buffered: seq<Tuple>
    var cursor: nat

    ghost predicate Valid()
      reads this
    {
      cursor <= |buffered|
    }

    /** The tuples still to come. */
    ghost function Rest(): seq<Tuple>
      requires Valid()
      reads this
    {
      buffered[cursor..]
    }

    constructor (t: Table)
      ensures Valid() && table == t && Rest() == []
    {
      table := t;
      buffered := [];
      cursor := 0;
    }

    method Open()
      modifies this
      ensures Valid() && Rest() == table
    {
      buffered := [];
      cursor := 0;
      buffered := table;
    }

    method Next() returns (t: Option<Tuple>)
      requires Valid()
      modifies this
      ensures Valid() && Yields(old(Rest()), t, Rest())
    {
      if cursor >= |buffered| {
        return None;
      }
      t := Some(buffered[cursor]);
      cursor := cursor + 1;
    }
  }

  /** One pull from a stream of tuples. */
  ghost predicate Yields(before: seq<Tuple>, t: Option<Tuple>, after: seq<Tuple>) {
    if before == [] then t == None && after == []
    else t == Some(before[0]) && after == before[1..]
  }

  /** Looks candidates up in the index when opened, then fetches their rows one by one. */
  class IndexScanOperator {
    const table: Table
    const tree: B.BPlusTree
    const conjunct: Conjunct
    var candidates: seq<RecordId>
    var cursor: nat

    ghost predicate Valid()
      reads this
    {
      cursor <= |candidates|
    }

    ghost function Rest(): seq<Tuple>
      requires Valid()
      reads this
    {
      Fetch(table, candidates[cursor..])
    }

    constructor (t: Table, index: B.BPlusTree, c: Conjunct)
      ensures Valid() && table == t && tree == index && conjunct == c && Rest() == []
    {
      table := t;
      tree := index;
      conjunct := c;
      candidates := [];
      cursor := 0;
    }

    method Open()
      requires tree.Valid()
      modifies this
      ensures Valid() && Rest() == Fetch(table, Found(tree.tree, conjunct))
      ensures Strict(tree.tree) ==> Rest() == Fetch(table, Candidates(Flat(tree.tree), conjunct))
    {
      cursor := 0;
      candidates := [];
      if conjunct.op == Eq {
        candidates := tree.SearchEqual(conjunct.value);
      } else {
        var entries := tree.RangeScan(RangeOf(conjunct));
        candidates := CollectRids(entries);
      }
      assert candidates[0..] == candidates;
    }

    method Next() returns (t: Option<Tuple>)
      requires Valid()
      modifies this
      ensures Valid() && Yields(old(Rest()), t, Rest())
    {
      while cursor < |candidates|
        invariant Valid() && candidates == old(candidates)
        invariant Rest() == old(Rest())
        decreases |candidates| - cursor
      {
        var rid := candidates[cursor];
        assert candidates[cursor..][1..] == candidates[cursor + 1..];
        cursor := cursor + 1;
        var row := GetRow(table, rid);
        if row.Some? {
          return Some(Tuple(rid, row.value));
        }
      }
      t := None;
    }
  }

  /** The record ids that the tree, with whatever separators it has, returns for a conjunct. */
  ghost function Found(t: Tree, c: Conjunct): seq<RecordId> {
    if c.op == Eq then Search.SearchEqual(t, c.value) else Rids(Search.RangeScan(t, RangeOf(c)))
  }

  method CollectRids(entries: seq<Entry>) returns (rids: seq<RecordId>)
    ensures rids == Rids(entries)
  {
    rids := [];
    var i := 0;
    while i < |entries|
      invariant i <= |entries|
      invariant rids + Rids(entries[i..]) == Rids(entries)
    {
      assert entries[i..][1..] == entries[i + 1..];
      rids := rids + [entries[i].rid];
      i := i + 1;
    }
  }

  /** The operator below a filter. */
  datatype Child = Seq(seqScan: SeqScanOperator) | Ind(indexScan: IndexScanOperator)

  ghost function Object(c: Child): object {
    match c
    case Seq(s) => s
    case Ind(x) => x
  }

  ghost predicate ChildValid(c: Child)
    reads Object(c)
  {
    match c
    case Seq(s) => s.Valid()
    case Ind(x) => x.Valid()
  }

  ghost function ChildRest(c: Child): seq<Tuple>
    requires ChildValid(c)
    reads Object(c)
  {
    match c
    case Seq(s) => s.Rest()
    case Ind(x) => x.Rest()
  }

  method ChildNext(c: Child) returns (t: Option<Tuple>)
    requires ChildValid(c)
    modifies Object(c)
    ensures ChildValid(c) && Yields(old(ChildRest(c)), t, ChildRest(c))
  {
    match c
    case Seq(s) => t := s.Next();
    case Ind(x) => t := x.Next();
  }

  predicate Widths(ts: seq<Tuple>, schema: Schema) {
    forall i :: 0 <= i < |ts| ==> |ts[i].values| == |schema|
  }

  /** Lets the tuples through that satisfy the clause; stops at the first error. */
  class FilterOperator {
    const child: Child
    const predicateExpr: Expr
    const schema: Schema
    var error: Status

    constructor (c: Child, e: Expr, s: Schema)
      ensures child == c && predicateExpr == e && schema == s && error == Ok
    {
      child := c;
      predicateExpr := e;
      schema := s;
      error := Ok;
    }

    /** Either the next accepted tuple, or the end; at the end `error` tells whether the clause failed on a tuple. */
    method Next() returns (t: Option<Tuple>)
      requires error == Ok && Object(child) != this
      requires ChildValid(child) && Widths(ChildRest(child), schema)
      modifies this, Object(child)
      ensures ChildValid(child) && Widths(ChildRest(child), schema)
      ensures var before := old(FilterAll(ChildRest(child), Some(predicateExpr), schema));
              if t.Some? then
                && error == Ok
                && before == Prepend(t.value, FilterAll(ChildRest(child), Some(predicateExpr), schema))
                && |ChildRest(child)| < old(|ChildRest(child)|)
              else before == if error == Ok then Success([]) else Failure(error)
    {
      while true
        invariant error == Ok && ChildValid(child) && Widths(ChildRest(child), schema)
        invariant FilterAll(ChildRest(child), Some(predicateExpr), schema) ==
                  old(FilterAll(ChildRest(child), Some(predicateExpr), schema))
        invariant |ChildRest(child)| <= old(|ChildRest(child)|)
        decreases |ChildRest(child)|
      {
        ghost var before := ChildRest(child);
        t := ChildNext(child);
        if t.None? {
          return;
        }
        assert |before[0].values| == |schema|;
        assert forall i :: 0 <= i < |before[1..]| ==> before[1..][i] == before[i + 1];
        var matched := EvaluatePredicate(Some(predicateExpr), schema, t.value.values);
        if matched.Failure? {
          FailureIsNotOk(Some(predicateExpr), schema, t.value.values);
          error := matched.status;
          t := None;
          return;
        }
        if matched.value {
          return;
        }
      }
    }
  }

  function Prepend(t: Tuple, r: Result<seq<Tuple>>): Result<seq<Tuple>> {
    if r.Success? then Success([t] + r.value) else r
  }

  /** An evaluation that fails never fails with the status of success. */
  lemma {:induction false} FailureIsNotOk(e: Option<Expr>, schema: Schema, row: Row)
    requires |row| == |schema| && EvaluatePredicate(e, schema, row).Failure?
    ensures EvaluatePredicate(e, schema, row).status == InvalidArgument
  {
    EvaluateFails(e.value, schema, row);
  }

  lemma {:induction false} EvaluateFails(e: Expr, schema: Schema, row: Row)
    requires |row| == |schema|
    ensures Evaluate(e, schema, row).Failure? ==> Evaluate(e, schema, row).status == InvalidArgument
  {
    if e.Binary? {
      EvaluateFails(e.left, schema, row);
      EvaluateFails(e.right, schema, row);
    }
  }

  /** Collects what a filter lets through; the rows are dropped when the filter ends with an error. */
  method Drain(f: FilterOperator) returns (rows: Result<seq<Tuple>>)
    requires f.error == Ok && Object(f.child) != f
    requires ChildValid(f.child) && Widths(ChildRest(f.child), f.schema)
    modifies f, Object(f.child)
    ensures rows == old(FilterAll(ChildRest(f.child), Some(f.predicateExpr), f.schema))
  {
    var out: seq<Tuple> := [];
    ghost var all := FilterAll(ChildRest(f.child), Some(f.predicateExpr), f.schema);
    PrependNone(all);
    while true
      invariant f.error == Ok && ChildValid(f.child) && Widths(ChildRest(f.child), f.schema)
      invariant all == PrependAll(out, FilterAll(ChildRest(f.child), Some(f.predicateExpr), f.schema))
      decreases |ChildRest(f.child)|
    {
      var t := f.Next();
      if t.None? {
        assert out + [] == out;
        return if f.error == Ok then Success(out) else Failure(f.error);
      }
      PrependMore(out, t.value, FilterAll(ChildRest(f.child), Some(f.predicateExpr), f.schema));
      out := out + [t.value];
    }
  }

  function PrependAll(ts: seq<Tuple>, r: Result<seq<Tuple>>): Result<seq<Tuple>> {
    if r.Success? then Success(ts + r.value) else r
  }

  lemma {:induction false} PrependNone(r: Result<seq<Tuple>>)
    ensures PrependAll([], r) == r
  {
    if r.Success? {
      assert [] + r.value == r.value;
    }
  }

  lemma {:induction false} PrependMore(ts: seq<Tuple>, t: Tuple, r: Result<seq<Tuple>>)
    ensures PrependAll(ts, Prepend(t, r)) == PrependAll(ts + [t], r)
  {
    if r.Success? {
      assert ts + ([t] + r.value) == (ts + [t]) + r.value;
    }
  }

  /* ---------- Choosing the scan ---------- */

  method FlattenAndInto(e: Expr, out: seq<Expr>) returns (r: seq<Expr>)
    ensures r == out + FlattenAnd(e)
  {
    if e.Binary? && e.op == And {
      r := FlattenAndInto(e.left, out);
      r := FlattenAndInto(e.right, r);
    } else {
      r := out + [e];
    }
  }

  method FindIndexFor(indexes: seq<Index>, column: string) returns (r: Option<nat>)
    ensures r == FindIndex(indexes, column)
  {
    var i := 0;
    while i < |indexes|
      invariant i <= |indexes|
      invariant var rest := FindIndex(indexes[i..], column);
                FindIndex(indexes, column) == if rest.None? then None else Some(i + rest.value)
    {
      if indexes[i].column == column {
        return Some(i);
      }
      assert indexes[i..][1..] == indexes[i + 1..];
      i := i + 1;
    }
    r := None;
  }

  method FindUsable(e: Expr, indexes: seq<Index>) returns (u: Option<Choice>)
    ensures u == Usable(e, indexes)
  {
    var candidate := ExtractIndexableConjunct(e);
    if candidate.None? {
      return None;
    }
    var found := FindIndexFor(indexes, candidate.value.column);
    u := if found.None? then None else Some(Choice(candidate.value, found.value));
  }

  lemma {:induction false} ChooseNext(cs: seq<Expr>, i: nat, indexes: seq<Index>, soFar: Option<Choice>)
    requires i < |cs|
    ensures var u := Usable(cs[i], indexes);
            Choose(cs[i..], indexes, soFar) ==
              if u.Some? && u.value.conjunct.op == Eq then u
              else Choose(cs[i + 1..], indexes, if soFar.None? then u else soFar)
  {
    assert cs[i..][1..] == cs[i + 1..];
  }

  method ChooseIndex(where: Option<Expr>, indexes: seq<Index>) returns (chosen: Option<Choice>)
    ensures chosen == Plan(where, indexes)
  {
    chosen := None;
    if where.None? || (where.value.Binary? && where.value.op == Or) {
      return;
    }
    var conjuncts := FlattenAndInto(where.value, []);
    var i := 0;
    while i < |conjuncts|
      invariant i <= |conjuncts|
      invariant Choose(conjuncts[i..], indexes, chosen) == Choose(conjuncts, indexes, None)
    {
      ChooseNext(conjuncts, i, indexes, chosen);
      var usable := FindUsable(conjuncts[i], indexes);
      if usable.Some? {
        if usable.value.conjunct.op == Eq {
          return usable;
        }
        if chosen.None? {
          chosen := usable;
        }
      }
      i := i + 1;
    }
  }

  /* ---------- A query ---------- */

  /** Every index has a tree. */
  ghost predicate IndexesFit(indexes: seq<Index>, trees: seq<B.BPlusTree>)
    reads trees
  {
    |trees| == |indexes| && forall i :: 0 <= i < |trees| ==> trees[i].Valid()
  }

  /** Each index of the table is a tree in search order that agrees with the table. */
  ghost predicate IndexesAgree(t: Table, schema: Schema, indexes: seq<Index>, trees: seq<B.BPlusTree>)
    reads trees
  {
    && |trees| == |indexes|
    && forall i :: 0 <= i < |trees| ==> IndexAgrees(t, schema, indexes[i], trees[i])
  }

  ghost predicate IndexAgrees(t: Table, schema: Schema, index: Index, tree: B.BPlusTree)
    reads tree
  {
    && tree.Valid() && Strict(tree.tree)
    && IndexOf(schema, index.column).Some?
    && var col := IndexOf(schema, index.column).value;
       && (schema[col].ctype == TInt || schema[col].ctype == TBigInt)
       && Agrees(t, Flat(tree.tree), col)
  }

  /** The index that the clause would be answered with, if any, agrees with the table. */
  ghost predicate ChosenAgrees(t: Table, schema: Schema, where: Expr, indexes: seq<Index>, trees: seq<B.BPlusTree>)
    reads trees
  {
    match Plan(Some(where), indexes)
    case None => true
    case Some(c) => c.index < |indexes| == |trees| && IndexAgrees(t, schema, indexes[c.index], trees[c.index])
  }

  /** No row that the clause accepts is out of reach of the index scan chosen for it. */
  ghost predicate NoneLost(t: Table, schema: Schema, where: Expr, indexes: seq<Index>)
    requires RowsFit(t, schema)
  {
    var plan := Plan(Some(where), indexes);
    if plan.None? then true
    else
      var col := IndexOf(schema, plan.value.conjunct.column);
      col.Some? ==> forall i :: 0 <= i < |t| ==> !Lost(t[i], where, schema, plan.value.conjunct, col.value)
  }

  /**
   The filtered rows of a SELECT with a WHERE clause: those of the table scan, or those of
   what the chosen index returns. If the filtered table scan raises no error then neither does
   the chosen plan. When the chosen index agrees with the table, the rows are the same exactly
   when no accepted row is lost by the plan.
   */
  method SelectRows(t: Table, schema: Schema, where: Expr, indexes: seq<Index>, trees: seq<B.BPlusTree>)
    returns (rows: Result<seq<Tuple>>)
    requires Distinct(t) && RowsFit(t, schema) && IndexesFit(indexes, trees)
    ensures FilterAll(t, Some(where), schema).Success? ==> rows.Success?
    ensures FilterAll(t, Some(where), schema).Success? && ChosenAgrees(t, schema, where, indexes, trees) ==>
              (multiset(rows.value) == multiset(FilterAll(t, Some(where), schema).value)
               <==> NoneLost(t, schema, where, indexes))
    ensures match Plan(Some(where), indexes)
            case None => rows == FilterAll(t, Some(where), schema)
            case Some(c) =>
              && c.index < |trees|
              && var found := Fetch(t, Found(trees[c.index].tree, c.conjunct));
                 Widths(found, schema) && rows == FilterAll(found, Some(where), schema)
  {
    var chosen := ChooseIndex(Some(where), indexes);
    if chosen.None? {
      rows := FilteredTable(t, schema, where);
    } else {
      PlannedRows(t, schema, where, indexes, chosen.value, trees);
      rows := FilteredIndex(t, schema, where, trees[chosen.value.index], chosen.value.conjunct);
    }
  }

  /** A filter over a scan of the table. */
  method FilteredTable(t: Table, schema: Schema, where: Expr) returns (rows: Result<seq<Tuple>>)
    requires Widths(t, schema)
    ensures rows == FilterAll(t, Some(where), schema)
  {
    var scan := new SeqScanOperator(t);
    var filter := new FilterOperator(Seq(scan), where, schema);
    scan.Open();
    rows := Drain(filter);
  }

  /** A filter over a scan of an index. */
  method FilteredIndex(t: Table, schema: Schema, where: Expr, tree: B.BPlusTree, c: Conjunct)
    returns (rows: Result<seq<Tuple>>)
    requires tree.Valid() && Widths(Fetch(t, Found(tree.tree, c)), schema)
    ensures rows == FilterAll(Fetch(t, Found(tree.tree, c)), Some(where), schema)
  {
    var scan := new IndexScanOperator(t, tree, c);
    var filter := new FilterOperator(Ind(scan), where, schema);
    scan.Open();
    rows := Drain(filter);
  }

  /** What the chosen index returns, filtered. */
  lemma {:induction false} PlannedRows(t: Table, schema: Schema, where: Expr, indexes: seq<Index>, c: Choice, trees: seq<B.BPlusTree>)
    requires Distinct(t) && RowsFit(t, schema) && IndexesFit(indexes, trees) && Plan(Some(where), indexes) == Some(c)
    ensures c.index < |trees|
    ensures var found := Fetch(t, Found(trees[c.index].tree, c.conjunct));
            && Widths(found, schema)
            && (FilterAll(t, Some(where), schema).Success? ==> FilterAll(found, Some(where), schema).Success?)
            && (FilterAll(t, Some(where), schema).Success? && ChosenAgrees(t, schema, where, indexes, trees) ==>
                  (multiset(FilterAll(found, Some(where), schema).value) == multiset(FilterAll(t, Some(where), schema).value)
                   <==> NoneLost(t, schema, where, indexes)))
  {
    var i := ChooseUsable(FlattenAnd(where), indexes, None);
    var tree := trees[c.index];
    var found := Fetch(t, Found(tree.tree, c.conjunct));
    FetchMembers(t, Found(tree.tree, c.conjunct));
    MembersWide(t, found, schema);
    MembersPass(t, found, where, schema);
    if FilterAll(t, Some(where), schema).Success? && ChosenAgrees(t, schema, where, indexes, trees) {
      FoundExact(tree.tree, c.conjunct);
      IndexScanIff(t, schema, where, indexes, c, IndexOf(schema, c.conjunct.column).value, Flat(tree.tree));
    }
  }

  lemma {:induction false} FoundExact(t: Tree, c: Conjunct)
    requires Strict(t)
    ensures Found(t, c) == Candidates(Flat(t), c)
  {
    if c.op == Eq {
      Search.SearchExact(t, c.value);
    } else {
      StrictImpliesWeak(t, None, None);
      Search.RangeScanExact(t, RangeOf(c));
    }
  }

  lemma {:induction false} MembersPass(t: Table, ts: seq<Tuple>, where: Expr, schema: Schema)
    requires Widths(t, schema) && Widths(ts, schema) && forall i :: 0 <= i < |ts| ==> ts[i] in t
    ensures FilterAll(t, Some(where), schema).Success? ==> FilterAll(ts, Some(where), schema).Success?
  {
    if FilterAll(t, Some(where), schema).Success? {
      forall i | 0 <= i < |ts| ensures !Fails(ts[i], Some(where), schema) {
        FilterAllIs(t, Some(where), schema, ts[i]);
        var j :| 0 <= j < |t| && t[j] == ts[i];
      }
      FilterAllIs(ts, Some(where), schema, Tuple(RecordId(0, 0), []));
    }
  }

  lemma {:induction false} MembersWide(t: Table, ts: seq<Tuple>, schema: Schema)
    requires RowsFit(t, schema) && forall i :: 0 <= i < |ts| ==> ts[i] in t
    ensures Widths(ts, schema)
  {
    forall i | 0 <= i < |ts| ensures |ts[i].values| == |schema| {
      var j :| 0 <= j < |t| && t[j] == ts[i];
    }
  }
}
