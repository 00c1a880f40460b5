/** WHERE expressions and their evaluation on one row: NULL, short circuits and type errors. */
module ExprEval {
  import opened Types
  import opened Values

  datatype BinaryOp = Eq | Neq | Lt | Lte | Gt | Gte | And | Or

  datatype Expr =
    | ColumnRef(column: string)
    | Literal(value: Value)
    | Binary(left: Expr, op: BinaryOp, right: Expr)

  function ToDouble(v: Value): Option<real> {
    match v
    case Int32(i) => Some(Nearest(i) as real)
    case Int64(n) => Some(Nearest(n) as real)
    case Double(d) => Some(d)
    case _ => None
  }

  function ValuesEqual(a: Value, b: Value): Result<bool> {
    if a.Null? || b.Null? then Success(false)
    else
      var da, db := ToDouble(a), ToDouble(b);
      if da.Some? && db.Some? then Success(da.value == db.value)
      else if a.Text? && b.Text? then Success(a.s == b.s)
      else if a.Bool? && b.Bool? then Success(a.b == b.b)
      else Failure(InvalidArgument)
  }

  /** Lexicographic comparison of strings: -1, 0 or 1. */
  function CompareText(a: string, b: string): int {
    if |a| == 0 && |b| == 0 then 0
    else if |a| == 0 then -1
    else if |b| == 0 then 1
    else if a[0] < b[0] then -1
    else if a[0] > b[0] then 1
    else CompareText(a[1..], b[1..])
  }

  function CompareOrdered(a: Value, b: Value): Result<int> {
    var da, db := ToDouble(a), ToDouble(b);
    if da.Some? && db.Some? then
      Success(if da.value < db.value then -1 else if da.value > db.value then 1 else 0)
    else if a.Text? && b.Text? then Success(CompareText(a.s, b.s))
    else if a.Bool? && b.Bool? then Success(if a.b == b.b then 0 else if a.b then 1 else -1)
    else Failure(InvalidArgument)
  }

  function Compare(op: BinaryOp, l: Value, r: Value): Result<Value>
    requires op != And && op != Or
  {
    if op == Eq || op == Neq then
      var eq := ValuesEqual(l, r);
      if eq.Failure? then Failure(eq.status) else Success(Bool(if op == Eq then eq.value else !eq.value))
    else if l.Null? || r.Null? then Success(Bool(false))
    else
      var c := CompareOrdered(l, r);
      if c.Failure? then Failure(c.status)
      else
        Success(Bool(if op == Lt then c.value < 0
                     else if op == Lte then c.value <= 0
                     else if op == Gt then c.value > 0
                     else c.value >= 0))
  }

  function Evaluate(e: Expr, schema: Schema, row: Row): Result<Value>
    requires |row| == |schema|
  {
    match e
    case ColumnRef(name) =>
      (match IndexOf(schema, name)
       case None => Failure(InvalidArgument)
       case Some(i) => Success(row[i]))
    case Literal(v) => Success(v)
    case Binary(left, op, right) =>
      var l := Evaluate(left, schema, row);
      if l.Failure? then l
      else if op == And || op == Or then
        if !l.value.Bool? then Failure(InvalidArgument)
        else if op == Or && l.value.b then Success(Bool(true))
        else if op == And && !l.value.b then Success(Bool(false))
        else
          var r := Evaluate(right, schema, row);
          if r.Failure? then r
          else if !r.value.Bool? then Failure(InvalidArgument)
          else Success(Bool(if op == And then l.value.b && r.value.b else l.value.b || r.value.b))
      else
        var r := Evaluate(right, schema, row);
        if r.Failure? then r else Compare(op, l.value, r.value)
  }

  /** The verdict of a WHERE clause on a row; no clause accepts every row. */
  function EvaluatePredicate(e: Option<Expr>, schema: Schema, row: Row): Result<bool>
    requires |row| == |schema|
  {
    match e
    case None => Success(true)
    case Some(x) =>
      var r := Evaluate(x, schema, row);
      if r.Failure? then Failure(r.status)
      else if !r.value.Bool? then Failure(InvalidArgument)
      else Success(r.value.b)
  }

  predicate IsTrue(e: Expr, schema: Schema, row: Row)
    requires |row| == |schema|
  {
    Evaluate(e, schema, row) == Success(Bool(true))
  }
}
