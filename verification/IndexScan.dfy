/** Filter over an index scan against filter over a table scan. */
module IndexScan {
  import opened Types
  import opened Values
  import opened ExprEval
  import opened BPlusTreeModel
  import opened BPlusTreeSearch
  import opened Planner

  datatype Tuple = Tuple(rid: RecordId, values: Row)

  /** A table as a scan returns it. */
  type Table = seq<Tuple>

  predicate Distinct(t: Table) {
    forall i, j :: 0 <= i < j < |t| ==> t[i].rid != t[j].rid
  }

  predicate RowsFit(t: Table, schema: Schema) {
    forall i :: 0 <= i < |t| ==>
      && |t[i].values| == |schema|
      && forall c :: 0 <= c < |schema| ==> MatchesType(t[i].values[c], schema[c].ctype)
  }

  /* ---------- Scans and the filter ---------- */

  /** The row stored under a record id. */
  function GetRow(t: Table, rid: RecordId): (r: Option<Row>)
    ensures r.Some? ==> Tuple(rid, r.value) in t
  {
    if |t| == 0 then None
    else if t[0].rid == rid then Some(t[0].values)
    else GetRow(t[1..], rid)
  }

  /** The tuples of an index scan: a lookup per candidate, skipping rows that are gone. */
  function Fetch(t: Table, rids: seq<RecordId>): seq<Tuple> {
    if |rids| == 0 then [] else FetchOne(t, rids[0]) + Fetch(t, rids[1..])
  }

  function FetchOne(t: Table, rid: RecordId): seq<Tuple> {
    match GetRow(t, rid)
    case None => []
    case Some(row) => [Tuple(rid, row)]
  }

  /** The rows a filter lets through, or the first error. */
  function FilterAll(ts: seq<Tuple>, where: Option<Expr>, schema: Schema): Result<seq<Tuple>>
    requires forall i :: 0 <= i < |ts| ==> |ts[i].values| == |schema|
  {
    if |ts| == 0 then Success([])
    else
      match EvaluatePredicate(where, schema, ts[0].values)
      case Failure(st) => Failure(st)
      case Success(keep) =>
        match FilterAll(ts[1..], where, schema)
        case Failure(st) => Failure(st)
        case Success(rest) => Success(if keep then [ts[0]] + rest else rest)
  }

  predicate Passes(t: Tuple, where: Option<Expr>, schema: Schema)
    requires |t.values| == |schema|
  {
    EvaluatePredicate(where, schema, t.values) == Success(true)
  }

  predicate Fails(t: Tuple, where: Option<Expr>, schema: Schema)
    requires |t.values| == |schema|
  {
    EvaluatePredicate(where, schema, t.values).Failure?
  }

  /** A filter succeeds if and only if no tuple fails; it then keeps the tuples that pass, as often as they occur. */
  lemma {:induction false} FilterAllIs(ts: seq<Tuple>, where: Option<Expr>, schema: Schema, x: Tuple)
    requires forall i :: 0 <= i < |ts| ==> |ts[i].values| == |schema|
    ensures FilterAll(ts, where, schema).Success? <==> forall i :: 0 <= i < |ts| ==> !Fails(ts[i], where, schema)
    ensures FilterAll(ts, where, schema).Success? ==>
              multiset(FilterAll(ts, where, schema).value)[x] ==
                if |x.values| == |schema| && Passes(x, where, schema) then multiset(ts)[x] else 0
  {
    if |ts| > 0 {
      FilterAllIs(ts[1..], where, schema, x);
      assert ts == [ts[0]] + ts[1..];
      var r := FilterAll(ts, where, schema);
      if r.Success? {
        assert !Fails(ts[0], where, schema);
        forall i | 0 <= i < |ts| ensures !Fails(ts[i], where, schema) {
          assert i > 0 ==> ts[i] == ts[1..][i - 1];
        }
      } else if !Fails(ts[0], where, schema) {
        var i :| 0 <= i < |ts[1..]| && Fails(ts[1..][i], where, schema);
        assert Fails(ts[i + 1], where, schema);
      }
    }
  }

  /* ---------- The index ---------- */

  function KeyEntries(t: Table, col: nat): seq<Entry> {
    if |t| == 0 then []
    else
      (if col < |t[0].values| && ExtractInt64Key(t[0].values[col]).Some?
       then [Entry(ExtractInt64Key(t[0].values[col]).value, t[0].rid)] else [])
      + KeyEntries(t[1..], col)
  }

  /** The index holds exactly one entry per row with a key. */
  predicate Agrees(t: Table, entries: seq<Entry>, col: nat) {
    multiset(entries) == multiset(KeyEntries(t, col))
  }

  function Rids(es: seq<Entry>): seq<RecordId> {
    if |es| == 0 then [] else [es[0].rid] + Rids(es[1..])
  }

  /** The record ids an index scan for a conjunct looks up. */
  function Candidates(entries: seq<Entry>, c: Conjunct): seq<RecordId> {
    if c.op == Eq then Matches(entries, c.value) else Rids(InRange(entries, RangeOf(c)))
  }

  lemma {:induction false} EqualIsRange(es: seq<Entry>, k: Key)
    ensures Matches(es, k) == Rids(InRange(es, Range(Some(k), true, Some(k), true)))
  {
    if |es| > 0 {
      EqualIsRange(es[1..], k);
      var r := Range(Some(k), true, Some(k), true);
      var h := if es[0].key == k then [es[0]] else [];
      assert InRange(es, r) == h + InRange(es[1..], r);
      if es[0].key == k {
        assert InRange(es, r)[1..] == InRange(es[1..], r);
      } else {
        assert InRange(es, r) == InRange(es[1..], r);
      }
    }
  }

  /** Which rows a scan of the index covers. */
  function CoveredRows(t: Table, c: Conjunct, col: nat): seq<Tuple> {
    if |t| == 0 then []
    else (if col < |t[0].values| && Covered(c, t[0].values[col]) then [t[0]] else []) + CoveredRows(t[1..], c, col)
  }

  lemma {:induction false} CoveredCount(t: Table, c: Conjunct, col: nat, x: Tuple)
    ensures multiset(CoveredRows(t, c, col))[x] ==
            if col < |x.values| && Covered(c, x.values[col]) then multiset(t)[x] else 0
  {
    if |t| > 0 {
      CoveredCount(t[1..], c, col, x);
      assert t == [t[0]] + t[1..];
    }
  }

  lemma {:induction false} InRangeCount(es: seq<Entry>, r: Range, x: Entry)
    ensures multiset(InRange(es, r))[x] == if Within(x.key, r) then multiset(es)[x] else 0
  {
    if |es| > 0 {
      InRangeCount(es[1..], r, x);
      assert es == [es[0]] + es[1..];
    }
  }

  lemma {:induction false} InRangePermuted(a: seq<Entry>, b: seq<Entry>, r: Range)
    requires multiset(a) == multiset(b)
    ensures multiset(InRange(a, r)) == multiset(InRange(b, r))
  {
    forall x ensures multiset(InRange(a, r))[x] == multiset(InRange(b, r))[x] {
      InRangeCount(a, r, x);
      InRangeCount(b, r, x);
    }
  }

  function Except<T>(s: seq<T>, i: nat): seq<T>
    requires i < |s|
  {
    s[..i] + s[i + 1..]
  }

  lemma {:induction false} ExceptMultiset<T>(s: seq<T>, i: nat)
    requires i < |s|
    ensures multiset(s) == multiset(Except(s, i)) + multiset{s[i]}
    ensures multiset(Except(s, i)) == multiset(s) - multiset{s[i]}
  {
    assert s == s[..i] + [s[i]] + s[i + 1..];
  }

  lemma {:induction false} RidsExcept(es: seq<Entry>, i: nat)
    requires i < |es|
    ensures |Rids(es)| == |es| && Rids(es)[i] == es[i].rid && Rids(Except(es, i)) == Except(Rids(es), i)
  {
    RidsLength(es);
    if i == 0 {
      assert Except(es, 0) == es[1..];
      assert Except(Rids(es), 0) == Rids(es[1..]);
    } else {
      RidsExcept(es[1..], i - 1);
      assert Except(es, i) == [es[0]] + Except(es[1..], i - 1);
      assert Except(es, i)[1..] == Except(es[1..], i - 1);
      assert Except(Rids(es), i) == [es[0].rid] + Except(Rids(es[1..]), i - 1);
    }
  }

  lemma {:induction false} RidsLength(es: seq<Entry>)
    ensures |Rids(es)| == |es|
  {
    if |es| > 0 {
      RidsLength(es[1..]);
    }
  }

  lemma {:induction false} RidsPermuted(a: seq<Entry>, b: seq<Entry>)
    requires multiset(a) == multiset(b)
    ensures multiset(Rids(a)) == multiset(Rids(b))
    decreases |a|
  {
    assert |a| == |multiset(a)| == |multiset(b)| == |b|;
    if |a| > 0 {
      assert a[0] in multiset(a);
      var i :| 0 <= i < |b| && b[i] == a[0];
      ExceptMultiset(a, 0);
      ExceptMultiset(b, i);
      RidsPermuted(Except(a, 0), Except(b, i));
      RidsExcept(a, 0);
      RidsExcept(b, i);
      ExceptMultiset(Rids(a), 0);
      ExceptMultiset(Rids(b), i);
    }
  }

  /* ---------- Looking candidates up ---------- */

  lemma {:induction false} GetRowAt(t: Table, i: nat)
    requires Distinct(t) && i < |t|
    ensures GetRow(t, t[i].rid) == Some(t[i].values)
  {
    if i > 0 {
      assert t[0].rid != t[i].rid;
      GetRowAt(t[1..], i - 1);
    }
  }

  lemma {:induction false} FetchFirst(t: Table, rids: seq<RecordId>)
    requires |rids| > 0
    ensures multiset(Fetch(t, rids)) == multiset(FetchOne(t, rids[0])) + multiset(Fetch(t, rids[1..]))
  {
  }

  lemma {:induction false} FetchExcept(t: Table, rids: seq<RecordId>, i: nat)
    requires i < |rids|
    ensures multiset(Fetch(t, rids)) == multiset(FetchOne(t, rids[i])) + multiset(Fetch(t, Except(rids, i)))
  {
    var e := Except(rids, i);
    if i == 0 {
      assert e == rids[1..];
    } else {
      FetchExcept(t, rids[1..], i - 1);
      assert e[1..] == Except(rids[1..], i - 1);
      Swap(multiset(FetchOne(t, rids[0])), multiset(FetchOne(t, rids[i])), multiset(Fetch(t, e[1..])));
      FetchFirst(t, e);
    }
    FetchFirst(t, rids);
  }

  lemma {:induction false} Swap<T>(a: multiset<T>, b: multiset<T>, c: multiset<T>)
    ensures a + (b + c) == b + (a + c)
  {
  }

  lemma {:induction false} FetchPermuted(t: Table, a: seq<RecordId>, b: seq<RecordId>)
    requires multiset(a) == multiset(b)
    ensures multiset(Fetch(t, a)) == multiset(Fetch(t, b))
    decreases |a|
  {
    assert |a| == |multiset(a)| == |multiset(b)| == |b|;
    if |a| > 0 {
      assert a[0] in multiset(a);
      var i :| 0 <= i < |b| && b[i] == a[0];
      ExceptMultiset(a, 0);
      ExceptMultiset(b, i);
      FetchPermuted(t, Except(a, 0), Except(b, i));
      FetchExcept(t, a, 0);
      FetchExcept(t, b, i);
    }
  }

  lemma {:induction false} FetchMembers(t: Table, rids: seq<RecordId>)
    ensures forall i :: 0 <= i < |Fetch(t, rids)| ==> Fetch(t, rids)[i] in t
  {
    if |rids| > 0 {
      FetchMembers(t, rids[1..]);
    }
  }

  /** Fetching the in-range keys of a part of the table returns the covered rows of that part. */
  lemma {:induction false} FetchKeys(t: Table, n: nat, c: Conjunct, col: nat)
    requires Distinct(t) && n <= |t|
    ensures Fetch(t, Rids(InRange(KeyEntries(t[n..], col), RangeOf(c)))) == CoveredRows(t[n..], c, col)
    decreases |t| - n
  {
    if n < |t| {
      FetchKeys(t, n + 1, c, col);
      assert t[n..][1..] == t[n + 1..];
      GetRowAt(t, n);
      var rest := KeyEntries(t[n + 1..], col);
      var r := RangeOf(c);
      if col < |t[n].values| && ExtractInt64Key(t[n].values[col]).Some? {
        var e := Entry(ExtractInt64Key(t[n].values[col]).value, t[n].rid);
        assert ([e] + rest)[1..] == rest;
        assert KeyEntries(t[n..], col) == [e] + rest;
        if Within(e.key, r) {
          assert InRange([e] + rest, r) == [e] + InRange(rest, r);
          assert ([e] + InRange(rest, r))[1..] == InRange(rest, r);
          assert Rids([e] + InRange(rest, r)) == [e.rid] + Rids(InRange(rest, r));
          assert ([e.rid] + Rids(InRange(rest, r)))[1..] == Rids(InRange(rest, r));
        } else {
          assert InRange([e] + rest, r) == InRange(rest, r);
        }
      } else {
        assert KeyEntries(t[n..], col) == rest;
      }
    }
  }

  /** The tuples of the index scan are the covered rows of the table, in some order. */
  lemma {:induction false} IndexTuples(t: Table, entries: seq<Entry>, c: Conjunct, col: nat)
    requires Distinct(t) && Agrees(t, entries, col)
    ensures multiset(Fetch(t, Candidates(entries, c))) == multiset(CoveredRows(t, c, col))
  {
    var r, keys := RangeOf(c), KeyEntries(t, col);
    EqualIsRange(entries, c.value);
    assert Candidates(entries, c) == Rids(InRange(entries, r));
    InRangePermuted(entries, keys, r);
    RidsPermuted(InRange(entries, r), InRange(keys, r));
    FetchPermuted(t, Rids(InRange(entries, r)), Rids(InRange(keys, r)));
    FetchKeys(t, 0, c, col);
    assert t[0..] == t;
  }

  /* ---------- The two plans ---------- */

  /** A row that the clause accepts but the index scan does not reach. */
  predicate Lost(x: Tuple, where: Expr, schema: Schema, c: Conjunct, col: nat)
    requires |x.values| == |schema| && col < |schema|
  {
    Passes(x, Some(where), schema) && (NullUnderNeq(c, x.values[col]) || SameDouble(c, x.values[col]))
  }

  lemma {:induction false} PassedIsCovered(x: Tuple, where: Expr, schema: Schema, indexes: seq<Index>, choice: Choice, col: nat)
    requires |x.values| == |schema| && Plan(Some(where), indexes) == Some(choice)
    requires IndexOf(schema, choice.conjunct.column) == Some(col)
    requires x.values[col].Null? || x.values[col].Int32? || x.values[col].Int64?
    requires Passes(x, Some(where), schema)
    ensures !Covered(choice.conjunct, x.values[col]) <==> Lost(x, where, schema, choice.conjunct, col)
  {
    var cs := FlattenAnd(where);
    var i := ChooseUsable(cs, indexes, None);
    ConjunctsTrue(where, schema, x.values, i);
    ExtractKeepsMeaning(cs[i], schema, x.values, col);
    CoverageIff(choice.conjunct, x.values[col]);
  }

  /**
   When the filter over the table scan raises no error, neither does the filter over the
   chosen index scan, and both return the same rows if and only if no accepted row has NULL
   under a chosen inequality or a key that is the same double as the chosen literal while
   lying on its other side. This holds for every WHERE clause.
   */
  lemma {:induction false} IndexScanIff(t: Table, schema: Schema, where: Expr, indexes: seq<Index>, choice: Choice, col: nat, entries: seq<Entry>)
    requires Distinct(t) && RowsFit(t, schema) && Agrees(t, entries, col)
    requires Plan(Some(where), indexes) == Some(choice)
    requires IndexOf(schema, choice.conjunct.column) == Some(col)
    requires schema[col].ctype == TInt || schema[col].ctype == TBigInt
    requires FilterAll(t, Some(where), schema).Success?
    ensures var scanned := Fetch(t, Candidates(entries, choice.conjunct));
            && (forall i :: 0 <= i < |scanned| ==> |scanned[i].values| == |schema|)
            && FilterAll(scanned, Some(where), schema).Success?
            && (multiset(FilterAll(scanned, Some(where), schema).value) == multiset(FilterAll(t, Some(where), schema).value)
                <==> forall i :: 0 <= i < |t| ==> !Lost(t[i], where, schema, choice.conjunct, col))
  {
    var c := choice.conjunct;
    var scanned := Fetch(t, Candidates(entries, c));
    FetchMembers(t, Candidates(entries, c));
    ScannedDoesNotFail(t, scanned, Some(where), schema);
    IndexTuples(t, entries, c, col);
    var a, b := FilterAll(scanned, Some(where), schema).value, FilterAll(t, Some(where), schema).value;
    forall x | x in t ensures multiset(a)[x] == if Lost(x, where, schema, c, col) then 0 else multiset(b)[x] {
      KeptCount(t, scanned, schema, where, indexes, choice, col, x);
    }
    if multiset(a) == multiset(b) {
      forall i | 0 <= i < |t| ensures !Lost(t[i], where, schema, c, col) {
        assert t[i] in t;
        FilterAllIs(t, Some(where), schema, t[i]);
        assert t[i] in multiset(t);
      }
    }
    if forall i :: 0 <= i < |t| ==> !Lost(t[i], where, schema, c, col) {
      forall x ensures multiset(a)[x] == multiset(b)[x] {
        if x in t {
          assert multiset(a)[x] == multiset(b)[x];
        } else {
          FilterAllIs(scanned, Some(where), schema, x);
          FilterAllIs(t, Some(where), schema, x);
          assert x !in multiset(t);
          CoveredCount(t, c, col, x);
        }
      }
    }
  }

  lemma {:induction false} ScannedDoesNotFail(t: Table, scanned: seq<Tuple>, where: Option<Expr>, schema: Schema)
    requires forall i :: 0 <= i < |t| ==> |t[i].values| == |schema|
    requires forall i :: 0 <= i < |scanned| ==> scanned[i] in t
    requires FilterAll(t, where, schema).Success?
    ensures forall i :: 0 <= i < |scanned| ==> |scanned[i].values| == |schema|
    ensures FilterAll(scanned, where, schema).Success?
  {
    var any := Tuple(RecordId(0, 0), []);
    FilterAllIs(t, where, schema, any);
    forall i | 0 <= i < |scanned| ensures |scanned[i].values| == |schema| && !Fails(scanned[i], where, schema) {
      var j :| 0 <= j < |t| && t[j] == scanned[i];
    }
    FilterAllIs(scanned, where, schema, any);
  }

  /** How often a row of the table comes out of the filtered index scan. */
  lemma {:induction false} KeptCount(t: Table, scanned: seq<Tuple>, schema: Schema, where: Expr, indexes: seq<Index>, choice: Choice, col: nat, x: Tuple)
    requires RowsFit(t, schema) && x in t && forall i :: 0 <= i < |scanned| ==> |scanned[i].values| == |schema|
    requires multiset(scanned) == multiset(CoveredRows(t, choice.conjunct, col))
    requires Plan(Some(where), indexes) == Some(choice)
    requires IndexOf(schema, choice.conjunct.column) == Some(col)
    requires schema[col].ctype == TInt || schema[col].ctype == TBigInt
    requires FilterAll(t, Some(where), schema).Success? && FilterAll(scanned, Some(where), schema).Success?
    ensures |x.values| == |schema|
    ensures multiset(FilterAll(scanned, Some(where), schema).value)[x] ==
            if Lost(x, where, schema, choice.conjunct, col) then 0 else multiset(FilterAll(t, Some(where), schema).value)[x]
  {
    var i :| 0 <= i < |t| && t[i] == x;
    assert MatchesType(x.values[col], schema[col].ctype);
    FilterAllIs(scanned, Some(where), schema, x);
    FilterAllIs(t, Some(where), schema, x);
    CoveredCount(t, choice.conjunct, col, x);
    if Passes(x, Some(where), schema) {
      PassedIsCovered(x, where, schema, indexes, choice, col);
    }
  }

  /**
   The everyday case: with a literal below 2^53 in magnitude or a strict comparison, and no
   NULL in the column when the chosen conjunct is an inequality, the index scan is a
   faithful replacement.
   */
  lemma {:induction false} IndexScanFaithful(t: Table, schema: Schema, where: Expr, indexes: seq<Index>, choice: Choice, col: nat, entries: seq<Entry>)
    requires Distinct(t) && RowsFit(t, schema) && Agrees(t, entries, col)
    requires Plan(Some(where), indexes) == Some(choice)
    requires IndexOf(schema, choice.conjunct.column) == Some(col)
    requires schema[col].ctype == TInt || schema[col].ctype == TBigInt
    requires -TWO_53 < choice.conjunct.value < TWO_53 || choice.conjunct.op in {Lt, Gt, Neq}
    requires choice.conjunct.op == Neq ==> forall i :: 0 <= i < |t| ==> !t[i].values[col].Null?
    requires FilterAll(t, Some(where), schema).Success?
    ensures var scanned := Fetch(t, Candidates(entries, choice.conjunct));
            && (forall i :: 0 <= i < |scanned| ==> |scanned[i].values| == |schema|)
            && FilterAll(scanned, Some(where), schema).Success?
            && multiset(FilterAll(scanned, Some(where), schema).value) == multiset(FilterAll(t, Some(where), schema).value)
  {
    IndexScanIff(t, schema, where, indexes, choice, col, entries);
    forall i | 0 <= i < |t| ensures !Lost(t[i], where, schema, choice.conjunct, col) {
      SmallLiteralsSafe(choice.conjunct, t[i].values[col]);
    }
  }

  /* ---------- Where the two plans differ ---------- */

  lemma {:induction false} OneRow(x: Tuple, where: Expr, schema: Schema)
    requires |x.values| == |schema| && Passes(x, Some(where), schema)
    ensures FilterAll([x], Some(where), schema) == Success([x])
  {
    assert [x][1..] == [] && [x] + [] == [x];
  }

  /** WHERE a != 5 on a row with NULL in column a: the table scan returns the row, the index scan does not. */
  lemma {:induction false} NullRowLostUnderNeq(rid: RecordId)
    ensures var schema := [Column("a", TInt, true, 0)];
            var where := Binary(ColumnRef("a"), Neq, Literal(Int64(5)));
            var t := [Tuple(rid, [Null])];
            && Plan(Some(where), [Index("i", "a")]) == Some(Choice(Conjunct("a", Neq, 5), 0))
            && FilterAll(t, Some(where), schema) == Success(t)
            && Agrees(t, [], 0) && Fetch(t, Candidates([], Conjunct("a", Neq, 5))) == []
  {
    var schema := [Column("a", TInt, true, 0)];
    var where := Binary(ColumnRef("a"), Neq, Literal(Int64(5)));
    var t := [Tuple(rid, [Null])];
    assert IndexOf(schema, "a") == Some(0);
    assert Evaluate(ColumnRef("a"), schema, [Null]) == Success(Null);
    OneRow(t[0], where, schema);
    assert KeyEntries(t, 0) == KeyEntries(t[1..], 0) == [];
    assert FlattenAnd(where) == [where];
  }

  /** WHERE a = 2^53 on a row with 2^53 + 1: equal as doubles, so only the table scan returns the row. */
  lemma {:induction false} LargeKeyLost(rid: RecordId)
    ensures var schema := [Column("a", TBigInt, true, 0)];
            var where := Binary(ColumnRef("a"), Eq, Literal(Int64(TWO_53)));
            var t := [Tuple(rid, [Int64(TWO_53 + 1)])];
            && Plan(Some(where), [Index("i", "a")]) == Some(Choice(Conjunct("a", Eq, TWO_53), 0))
            && FilterAll(t, Some(where), schema) == Success(t)
            && Agrees(t, [Entry(TWO_53 + 1, rid)], 0)
            && Fetch(t, Candidates([Entry(TWO_53 + 1, rid)], Conjunct("a", Eq, TWO_53))) == []
  {
    var schema := [Column("a", TBigInt, true, 0)];
    var where := Binary(ColumnRef("a"), Eq, Literal(Int64(TWO_53)));
    var t := [Tuple(rid, [Int64(TWO_53 + 1)])];
    var es := [Entry(TWO_53 + 1, rid)];
    assert Nearest(TWO_53 + 1) == Nearest(TWO_53) == TWO_53;
    assert IndexOf(schema, "a") == Some(0);
    assert Evaluate(ColumnRef("a"), schema, t[0].values) == Success(Int64(TWO_53 + 1));
    assert Compare(Eq, Int64(TWO_53 + 1), Int64(TWO_53)) == Success(Bool(true));
    assert IsTrue(where, schema, t[0].values);
    OneRow(t[0], where, schema);
    assert KeyEntries(t, 0) == es + KeyEntries(t[1..], 0) == es;
    assert Matches(es, TWO_53) == Matches(es[1..], TWO_53) == [];
    assert FlattenAnd(where) == [where];
  }
}
