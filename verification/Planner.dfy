/**
 Choosing an index for a WHERE clause, and when scanning through the index returns the
 same rows as scanning the table.
 */
module Planner {
  import opened Types
  import opened Values
  import opened ExprEval
  import opened BPlusTreeModel
  import opened BPlusTreeSearch

  /* ---------- The rule-based choice ---------- */

  /** The conjuncts of a chain of ANDs, left to right. */
  function FlattenAnd(e: Expr): seq<Expr> {
    match e
    case Binary(l, And, r) => FlattenAnd(l) + FlattenAnd(r)
    case _ => [e]
  }

  function FlipComparisonOp(op: BinaryOp): BinaryOp {
    match op
    case Lt => Gt
    case Gt => Lt
    case Lte => Gte
    case Gte => Lte
    case _ => op
  }

  datatype Conjunct = Conjunct(column: string, op: BinaryOp, value: Key)

  /** A comparison of a column with an integer literal, on either side. */
  function ExtractIndexableConjunct(e: Expr): (r: Option<Conjunct>)
    ensures r.Some? ==> r.value.op != And && r.value.op != Or
  {
    match e
    case Binary(l, op, r) =>
      if op == And || op == Or then None
      else if l.ColumnRef? && r.Literal? then
        if r.value.Int64? then Some(Conjunct(l.column, op, r.value.n)) else None
      else if r.ColumnRef? && l.Literal? then
        if l.value.Int64? then Some(Conjunct(r.column, FlipComparisonOp(op), l.value.n)) else None
      else None
    case _ => None
  }

  datatype Index = Index(name: string, column: string)

  /** The first index on a column. */
  function FindIndex(indexes: seq<Index>, column: string): (r: Option<nat>)
    ensures r.Some? ==> r.value < |indexes| && indexes[r.value].column == column
    ensures r.None? ==> forall i :: 0 <= i < |indexes| ==> indexes[i].column != column
  {
    if |indexes| == 0 then None
    else if indexes[0].column == column then Some(0)
    else
      var r := FindIndex(indexes[1..], column);
      if r.None? then None else Some(r.value + 1)
  }

  datatype Choice = Choice(conjunct: Conjunct, index: nat)

  function Usable(e: Expr, indexes: seq<Index>): (r: Option<Choice>)
    ensures r.Some? ==> r.value.index < |indexes| && indexes[r.value.index].column == r.value.conjunct.column
    ensures r.Some? ==> ExtractIndexableConjunct(e) == Some(r.value.conjunct)
  {
    var c := ExtractIndexableConjunct(e);
    if c.None? then None
    else
      var i := FindIndex(indexes, c.value.column);
      if i.None? then None else Some(Choice(c.value, i.value))
  }

  /** The first usable equality; failing that the first usable conjunct. */
  function Choose(cs: seq<Expr>, indexes: seq<Index>, soFar: Option<Choice>): Option<Choice> {
    if |cs| == 0 then soFar
    else
      var u := Usable(cs[0], indexes);
      if u.None? then Choose(cs[1..], indexes, soFar)
      else if u.value.conjunct.op == Eq then u
      else Choose(cs[1..], indexes, if soFar.None? then u else soFar)
  }

  function Plan(where: Option<Expr>, indexes: seq<Index>): Option<Choice> {
    if where.None? || (where.value.Binary? && where.value.op == Or) then None
    else Choose(FlattenAnd(where.value), indexes, None)
  }

  /** The chosen conjunct is one of the conjuncts of the clause, on an indexed column. */
  lemma {:induction false} ChooseUsable(cs: seq<Expr>, indexes: seq<Index>, soFar: Option<Choice>) returns (i: nat)
    requires Choose(cs, indexes, soFar).Some?
    ensures Choose(cs, indexes, soFar) == soFar || (i < |cs| && Usable(cs[i], indexes) == Choose(cs, indexes, soFar))
    decreases |cs|
  {
    i := 0;
    if |cs| > 0 {
      var u := Usable(cs[0], indexes);
      if u.None? {
        i := ChooseUsable(cs[1..], indexes, soFar);
        i := i + 1;
      } else if u.value.conjunct.op != Eq {
        i := ChooseUsable(cs[1..], indexes, if soFar.None? then u else soFar);
        i := if Choose(cs, indexes, soFar) == u then 0 else i + 1;
      }
    }
  }

  /** An equality is preferred: a range is chosen only if no usable conjunct is an equality. */
  lemma {:induction false} EqualityPreferred(cs: seq<Expr>, indexes: seq<Index>, soFar: Option<Choice>, i: nat)
    requires i < |cs| && Usable(cs[i], indexes).Some? && Usable(cs[i], indexes).value.conjunct.op == Eq
    ensures Choose(cs, indexes, soFar).Some? && Choose(cs, indexes, soFar).value.conjunct.op == Eq
    decreases |cs|
  {
    if i > 0 {
      var u := Usable(cs[0], indexes);
      if u.None? {
        EqualityPreferred(cs[1..], indexes, soFar, i - 1);
      } else if u.value.conjunct.op != Eq {
        EqualityPreferred(cs[1..], indexes, if soFar.None? then u else soFar, i - 1);
      }
    }
  }

  /* ---------- A true clause makes every conjunct true ---------- */

  lemma {:induction false} ConjunctsTrue(e: Expr, schema: Schema, row: Row, i: nat)
    requires |row| == |schema| && IsTrue(e, schema, row) && i < |FlattenAnd(e)|
    ensures IsTrue(FlattenAnd(e)[i], schema, row)
  {
    if e.Binary? && e.op == And {
      var n := |FlattenAnd(e.left)|;
      if i < n {
        ConjunctsTrue(e.left, schema, row, i);
      } else {
        ConjunctsTrue(e.right, schema, row, i - n);
      }
    }
  }

  /* ---------- What the index scan looks up ---------- */

  /** The key range of a conjunct; every key for an inequality. */
  function RangeOf(c: Conjunct): Range {
    match c.op
    case Eq => Range(Some(c.value), true, Some(c.value), true)
    case Lt => Range(None, true, Some(c.value), false)
    case Lte => Range(None, true, Some(c.value), true)
    case Gt => Range(Some(c.value), false, None, true)
    case Gte => Range(Some(c.value), true, None, true)
    case _ => Range(None, true, None, true)
  }

  predicate Within(k: Key, r: Range) {
    !BelowRange(k, r) && !AboveRange(k, r)
  }

  function ExtractInt64Key(v: Value): Option<Key> {
    match v
    case Int32(i) => Some(i)
    case Int64(n) => Some(n)
    case _ => None
  }

  /** The row is among those an index scan for the conjunct returns. */
  predicate Covered(c: Conjunct, v: Value) {
    ExtractInt64Key(v).Some? && Within(ExtractInt64Key(v).value, RangeOf(c))
  }

  /** NULL in a column that a chosen inequality compares. */
  predicate NullUnderNeq(c: Conjunct, v: Value) {
    c.op == Neq && v.Null?
  }

  /** A key outside the range that is the same double as the literal. */
  predicate SameDouble(c: Conjunct, v: Value) {
    && (c.op == Eq || c.op == Lte || c.op == Gte)
    && ExtractInt64Key(v).Some?
    && !Within(ExtractInt64Key(v).value, RangeOf(c))
    && Nearest(ExtractInt64Key(v).value) == Nearest(c.value)
  }

  /** The truth of the conjunct on a column value. */
  predicate Holds(c: Conjunct, v: Value)
    requires c.op != And && c.op != Or
  {
    Compare(c.op, v, Int64(c.value)) == Success(Bool(true))
  }

  /**
   A value of an INT or BIGINT column for which the conjunct is true is covered by the
   index scan, except in exactly two cases: NULL under an inequality, and a key that
   becomes the same double as the literal although it is on the other side of it.
   */
  lemma {:induction false} CoverageIff(c: Conjunct, v: Value)
    requires c.op != And && c.op != Or && (v.Null? || v.Int32? || v.Int64?)
    ensures Holds(c, v) && !Covered(c, v) <==> NullUnderNeq(c, v) || SameDouble(c, v)
  {
    if !v.Null? {
      var k := ExtractInt64Key(v).value;
      if k <= c.value {
        NearestMonotone(k, c.value);
      }
      if c.value <= k {
        NearestMonotone(c.value, k);
      }
      assert (Nearest(k) as real == Nearest(c.value) as real) <==> Nearest(k) == Nearest(c.value);
      assert (Nearest(k) as real < Nearest(c.value) as real) <==> Nearest(k) < Nearest(c.value);
    }
  }

  /** With a literal below 2^53 in magnitude, or a strict comparison, no key is mistaken for it. */
  lemma {:induction false} SmallLiteralsSafe(c: Conjunct, v: Value)
    requires -TWO_53 < c.value < TWO_53 || c.op == Lt || c.op == Gt || c.op == Neq
    ensures !SameDouble(c, v)
  {
    if ExtractInt64Key(v).Some? && -TWO_53 < c.value < TWO_53 {
      NearestExact(ExtractInt64Key(v).value, c.value);
      NearestExact(c.value, c.value);
    }
  }

  /** An extracted conjunct is true of a row exactly when the expression is. */
  lemma {:induction false} ExtractKeepsMeaning(e: Expr, schema: Schema, row: Row, i: nat)
    requires |row| == |schema| && ExtractIndexableConjunct(e).Some?
    requires IndexOf(schema, ExtractIndexableConjunct(e).value.column) == Some(i)
    requires row[i].Null? || row[i].Int32? || row[i].Int64?
    ensures IsTrue(e, schema, row) <==> Holds(ExtractIndexableConjunct(e).value, row[i])
  {
    var c := ExtractIndexableConjunct(e).value;
    if e.left.ColumnRef? && e.right.Literal? {
      assert Evaluate(e.left, schema, row) == Success(row[i]);
      assert Evaluate(e.right, schema, row) == Success(Int64(c.value));
    } else {
      assert Evaluate(e.left, schema, row) == Success(Int64(c.value));
      assert Evaluate(e.right, schema, row) == Success(row[i]);
      FlipCompare(e.op, e.left.value, row[i]);
    }
  }

  /** Turning a comparison around keeps its outcome. */
  lemma {:induction false} FlipCompare(op: BinaryOp, a: Value, b: Value)
    requires op != And && op != Or && a.Int64? && (b.Null? || b.Int32? || b.Int64?)
    ensures Compare(op, a, b) == Compare(FlipComparisonOp(op), b, a)
  {
  }
}
