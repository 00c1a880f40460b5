/**
 The grammar of WHERE expressions: a recursive-descent parser as functions over a token list,
 a printer that writes parentheses only where the grammar needs them, and their round trip.
 */
module ParserModel {
  import opened Types
  import opened Bytes
  import opened Values
  import opened ExprEval

  type Digit = d: nat | d < 10

  /** A token; a float literal carries the number its digits stand for, if it is one; `Other` is every kind that no expression contains. */
  datatype Token =
    | Identifier(name: string)
    | IntLiteral(digits: seq<Digit>)
    | FloatLiteral(value: Option<real>)
    | StringLiteral(s: string)
    | NullToken
    | TrueToken
    | FalseToken
    | OperatorToken(op: BinaryOp)
    | LParen
    | RParen
    | Where
    | Other(kind: nat)
    | EndOfInput

  /** Tokens end with the end of input, and the position is on one of them. */
  predicate Ready(ts: seq<Token>, p: nat) {
    p < |ts| && ts[|ts| - 1] == EndOfInput
  }

  predicate IsComparison(t: Token) {
    t.OperatorToken? && t.op != And && t.op != Or
  }

  /* ---------- Integer literals ---------- */

  function DigitsValue(ds: seq<Digit>): nat {
    if |ds| == 0 then 0 else DigitsValue(ds[..|ds| - 1]) * 10 + ds[|ds| - 1]
  }

  function Decimal(n: nat): (ds: seq<Digit>)
    ensures |ds| > 0
  {
    if n < 10 then [n] else Decimal(n / 10) + [n % 10]
  }

  lemma {:induction false} DecimalValue(n: nat)
    ensures DigitsValue(Decimal(n)) == n
  {
    if n < 10 {
      assert [n][..0] == [];
    } else {
      DecimalValue(n / 10);
      var ds := Decimal(n);
      assert ds[..|ds| - 1] == Decimal(n / 10);
    }
  }

  /* ---------- The parser ---------- */

  /** An expression and the position behind it. */
  datatype Parsed = Parsed(expr: Expr, next: nat)

  function ParseLiteral(t: Token): (r: Result<Value>)
    ensures r.Success? ==> PrintableValue(r.value) && t != EndOfInput
  {
    match t
    case NullToken => Success(Null)
    case TrueToken => Success(Bool(true))
    case FalseToken => Success(Bool(false))
    case IntLiteral(ds) =>
      if |ds| == 0 || DigitsValue(ds) >= TWO_63 then Failure(InvalidArgument) else Success(Int64(DigitsValue(ds)))
    case FloatLiteral(d) => if d.Some? then Success(Double(d.value)) else Failure(InvalidArgument)
    case StringLiteral(s) => Success(Text(s))
    case _ => Failure(InvalidArgument)
  }

  /** What every parsing function promises: it moves on, never past the end of input, to an expression that can be printed. */
  predicate Advances(ts: seq<Token>, p: nat, r: Result<Parsed>) {
    match r
    case Success(x) => p < x.next < |ts| && Printable(x.expr)
    case Failure(st) => st == InvalidArgument
  }

  function ParsePrimary(ts: seq<Token>, p: nat): (r: Result<Parsed>)
    requires Ready(ts, p)
    ensures Advances(ts, p, r)
    decreases |ts| - p, 0
  {
    if ts[p] == LParen then
      var inner := ParseOr(ts, p + 1);
      if inner.Failure? then inner
      else if ts[inner.value.next] != RParen then Failure(InvalidArgument)
      else Success(Parsed(inner.value.expr, inner.value.next + 1))
    else if ts[p].Identifier? then Success(Parsed(ColumnRef(ts[p].name), p + 1))
    else
      var v := ParseLiteral(ts[p]);
      if v.Failure? then Failure(InvalidArgument) else Success(Parsed(Literal(v.value), p + 1))
  }

  function ParseComparison(ts: seq<Token>, p: nat): (r: Result<Parsed>)
    requires Ready(ts, p)
    ensures Advances(ts, p, r)
    decreases |ts| - p, 1
  {
    var left := ParsePrimary(ts, p);
    if left.Failure? then left
    else
      var q := left.value.next;
      if !IsComparison(ts[q]) then left
      else
        var right := ParsePrimary(ts, q + 1);
        if right.Failure? then right
        else Success(Parsed(Binary(left.value.expr, ts[q].op, right.value.expr), right.value.next))
  }

  function ParseAnd(ts: seq<Token>, p: nat): (r: Result<Parsed>)
    requires Ready(ts, p)
    ensures Advances(ts, p, r)
    decreases |ts| - p, 2
  {
    var left := ParseComparison(ts, p);
    if left.Failure? then left else AndRest(ts, left.value.next, left.value.expr)
  }

  /** Further AND operands, added to the left. */
  function AndRest(ts: seq<Token>, p: nat, left: Expr): (r: Result<Parsed>)
    requires Ready(ts, p) && Printable(left)
    ensures r.Success? ==> p <= r.value.next < |ts| && Printable(r.value.expr)
    ensures r.Failure? ==> r.status == InvalidArgument
    decreases |ts| - p, 3
  {
    if ts[p] != OperatorToken(And) then Success(Parsed(left, p))
    else
      var right := ParseComparison(ts, p + 1);
      if right.Failure? then right
      else AndRest(ts, right.value.next, Binary(left, And, right.value.expr))
  }

  function ParseOr(ts: seq<Token>, p: nat): (r: Result<Parsed>)
    requires Ready(ts, p)
    ensures Advances(ts, p, r)
    decreases |ts| - p, 4
  {
    var left := ParseAnd(ts, p);
    if left.Failure? then left else OrRest(ts, left.value.next, left.value.expr)
  }

  function OrRest(ts: seq<Token>, p: nat, left: Expr): (r: Result<Parsed>)
    requires Ready(ts, p) && Printable(left)
    ensures r.Success? ==> p <= r.value.next < |ts| && Printable(r.value.expr)
    ensures r.Failure? ==> r.status == InvalidArgument
    decreases |ts| - p, 5
  {
    if ts[p] != OperatorToken(Or) then Success(Parsed(left, p))
    else
      var right := ParseAnd(ts, p + 1);
      if right.Failure? then right
      else OrRest(ts, right.value.next, Binary(left, Or, right.value.expr))
  }

  /* ---------- The printer ---------- */

  /** Values that literals of the language denote. */
  predicate PrintableValue(v: Value) {
    match v
    case Int32(_) => false
    case Int64(n) => 0 <= n < TWO_63
    case _ => true
  }

  predicate Printable(e: Expr) {
    match e
    case ColumnRef(_) => true
    case Literal(v) => PrintableValue(v)
    case Binary(l, _, r) => Printable(l) && Printable(r)
  }

  function LiteralToken(v: Value): Token
    requires PrintableValue(v)
  {
    match v
    case Null => NullToken
    case Int64(n) => IntLiteral(Decimal(n))
    case Double(d) => FloatLiteral(Some(d))
    case Bool(b) => if b then TrueToken else FalseToken
    case Text(s) => StringLiteral(s)
  }

  /** How tightly an expression binds: OR, AND, a comparison, or a single operand. */
  function Binding(e: Expr): nat {
    if !e.Binary? then 3 else if e.op == Or then 0 else if e.op == And then 1 else 2
  }

  /** The tokens of an expression where the grammar takes expressions that bind at least as tightly as `level`. */
  function Print(e: Expr, level: nat): (s: seq<Token>)
    requires Printable(e)
    ensures |s| > 0
    decreases e, 1
  {
    if Binding(e) >= level then Bare(e) else [LParen] + Bare(e) + [RParen]
  }

  function Bare(e: Expr): (s: seq<Token>)
    requires Printable(e)
    ensures |s| > 0
    decreases e, 0
  {
    match e
    case ColumnRef(name) => [Identifier(name)]
    case Literal(v) => [LiteralToken(v)]
    case Binary(l, op, r) =>
      if op == Or then Print(l, 0) + [OperatorToken(Or)] + Print(r, 1)
      else if op == And then Print(l, 1) + [OperatorToken(And)] + Print(r, 2)
      else Print(l, 3) + [OperatorToken(op)] + Print(r, 3)
  }

  /* ---------- Round trip ---------- */

  predicate At(ts: seq<Token>, p: nat, s: seq<Token>) {
    p + |s| <= |ts| && ts[p..p + |s|] == s
  }

  lemma {:induction false} AtThree(ts: seq<Token>, p: nat, a: seq<Token>, t: Token, b: seq<Token>)
    requires At(ts, p, a + [t] + b)
    ensures At(ts, p, a) && p + |a| < |ts| && ts[p + |a|] == t && At(ts, p + |a| + 1, b)
  {
    var s := a + [t] + b;
    assert ts[p..p + |a|] == ts[p..p + |s|][..|a|];
    assert ts[p + |a|] == ts[p..p + |s|][|a|];
    assert ts[p + |a| + 1..p + |s|] == ts[p..p + |s|][|a| + 1..];
  }

  /** An expression printed for a level stands from `p` to `q`, with a token behind it. */
  predicate Stands(ts: seq<Token>, p: nat, e: Expr, level: nat, q: nat) {
    Printable(e) && At(ts, p, Print(e, level)) && q == p + |Print(e, level)| && Ready(ts, q)
  }

  /** The operands of an unparenthesized binary expression and the operator between them. */
  lemma {:induction false} OperandsStand(ts: seq<Token>, p: nat, e: Expr, level: nat, q: nat) returns (m: nat)
    requires e.Binary? && Binding(e) >= level && Stands(ts, p, e, level, q)
    ensures var l := if e.op == Or then 0 else if e.op == And then 1 else 3;
            var r := if e.op == Or then 1 else if e.op == And then 2 else 3;
            Stands(ts, p, e.left, l, m) && ts[m] == OperatorToken(e.op) && Stands(ts, m + 1, e.right, r, q)
  {
    var l := if e.op == Or then 0 else if e.op == And then 1 else 3;
    var r := if e.op == Or then 1 else if e.op == And then 2 else 3;
    assert Print(e, level) == Print(e.left, l) + [OperatorToken(e.op)] + Print(e.right, r);
    AtThree(ts, p, Print(e.left, l), OperatorToken(e.op), Print(e.right, r));
    m := p + |Print(e.left, l)|;
  }

  /** An expression that binds too loosely for the level stands in parentheses. */
  lemma {:induction false} InParentheses(ts: seq<Token>, p: nat, e: Expr, level: nat, q: nat)
    requires Binding(e) < level && Stands(ts, p, e, level, q)
    ensures ts[p] == LParen && p + 1 < q && Stands(ts, p + 1, e, 0, q - 1) && ts[q - 1] == RParen
  {
    var s := Print(e, level);
    assert s == [] + [LParen] + (Bare(e) + [RParen]);
    AtThree(ts, p, [], LParen, Bare(e) + [RParen]);
    assert Bare(e) + [RParen] == Bare(e) + [RParen] + [];
    AtThree(ts, p + 1, Bare(e), RParen, []);
  }

  lemma {:induction false} LiteralRoundTrip(v: Value)
    requires PrintableValue(v)
    ensures ParseLiteral(LiteralToken(v)) == Success(v)
  {
    if v.Int64? {
      DecimalValue(v.n);
    }
  }

  lemma {:induction false} LeafRoundTrip(ts: seq<Token>, p: nat, e: Expr, q: nat)
    requires !e.Binary? && Stands(ts, p, e, 3, q)
    ensures ParsePrimary(ts, p) == Success(Parsed(e, q))
  {
    var s := Print(e, 3);
    assert s == Bare(e) && |s| == 1;
    assert ts[p] == ts[p..p + |s|][0] == s[0];
    if e.Literal? {
      LiteralRoundTrip(e.value);
    }
  }

  lemma {:induction false} PrimaryRoundTrip(ts: seq<Token>, p: nat, e: Expr, q: nat)
    requires Stands(ts, p, e, 3, q)
    ensures ParsePrimary(ts, p) == Success(Parsed(e, q))
    decreases e, (Binding(e) + 1) % 4
  {
    if e.Binary? {
      InParentheses(ts, p, e, 3, q);
      OrRoundTrip(ts, p + 1, e, q - 1);
    } else {
      LeafRoundTrip(ts, p, e, q);
    }
  }

  lemma {:induction false} ComparisonStep(ts: seq<Token>, p: nat, m: nat, q: nat, l: Expr, r: Expr)
    requires Ready(ts, p) && Ready(ts, m) && IsComparison(ts[m]) && Ready(ts, m + 1)
    requires ParsePrimary(ts, p) == Success(Parsed(l, m)) && ParsePrimary(ts, m + 1) == Success(Parsed(r, q))
    ensures ParseComparison(ts, p) == Success(Parsed(Binary(l, ts[m].op, r), q))
  {
  }

  lemma {:induction false} ComparisonRoundTrip(ts: seq<Token>, p: nat, e: Expr, q: nat)
    requires Stands(ts, p, e, 2, q) && !IsComparison(ts[q])
    ensures ParseComparison(ts, p) == Success(Parsed(e, q))
    decreases e, (Binding(e) + 2) % 4
  {
    if Binding(e) == 2 {
      var m := OperandsStand(ts, p, e, 2, q);
      PrimaryRoundTrip(ts, p, e.left, m);
      PrimaryRoundTrip(ts, m + 1, e.right, q);
      ComparisonStep(ts, p, m, q, e.left, e.right);
    } else {
      PrimaryRoundTrip(ts, p, e, q);
    }
  }

  lemma {:induction false} AndStep(ts: seq<Token>, p: nat, m: nat, q: nat, l: Expr, r: Expr)
    requires Ready(ts, p) && Ready(ts, m) && Printable(l) && ts[m] == OperatorToken(And) && Ready(ts, m + 1)
    requires ParseAnd(ts, p) == AndRest(ts, m, l) && ParseComparison(ts, m + 1) == Success(Parsed(r, q))
    ensures ParseAnd(ts, p) == AndRest(ts, q, Binary(l, And, r))
  {
  }

  /** Parsing at the AND level reads a printed expression and goes on with it as the left operand. */
  lemma {:induction false} AndRoundTrip(ts: seq<Token>, p: nat, e: Expr, q: nat)
    requires Stands(ts, p, e, 1, q) && !IsComparison(ts[q])
    ensures ParseAnd(ts, p) == AndRest(ts, q, e)
    decreases e, (Binding(e) + 3) % 4
  {
    if Binding(e) == 1 {
      var m := OperandsStand(ts, p, e, 1, q);
      AndRoundTrip(ts, p, e.left, m);
      ComparisonRoundTrip(ts, m + 1, e.right, q);
      AndStep(ts, p, m, q, e.left, e.right);
    } else {
      ComparisonRoundTrip(ts, p, e, q);
    }
  }

  lemma {:induction false} OrStep(ts: seq<Token>, p: nat, m: nat, q: nat, l: Expr, r: Expr)
    requires Ready(ts, p) && Ready(ts, m) && Printable(l) && ts[m] == OperatorToken(Or) && Ready(ts, m + 1)
    requires Ready(ts, q) && Printable(r) && ts[q] != OperatorToken(And)
    requires ParseOr(ts, p) == OrRest(ts, m, l) && ParseAnd(ts, m + 1) == AndRest(ts, q, r)
    ensures ParseOr(ts, p) == OrRest(ts, q, Binary(l, Or, r))
  {
  }

  /** The same at the OR level. */
  lemma {:induction false} OrRoundTrip(ts: seq<Token>, p: nat, e: Expr, q: nat)
    requires Stands(ts, p, e, 0, q) && !IsComparison(ts[q]) && ts[q] != OperatorToken(And)
    ensures ParseOr(ts, p) == OrRest(ts, q, e)
    decreases e, Binding(e) % 4
  {
    if Binding(e) == 0 {
      var m := OperandsStand(ts, p, e, 0, q);
      OrRoundTrip(ts, p, e.left, m);
      AndRoundTrip(ts, m + 1, e.right, q);
      OrStep(ts, p, m, q, e.left, e.right);
    } else {
      AndRoundTrip(ts, p, e, q);
    }
  }

  /**
   Parsing a printed expression, wherever it stands and whatever non-operator follows it, gives
   back the same tree and consumes exactly its tokens.
   */
  lemma {:induction false} PrintParse(ts: seq<Token>, p: nat, e: Expr, q: nat)
    requires Stands(ts, p, e, 0, q) && !ts[q].OperatorToken?
    ensures ParseOr(ts, p) == Success(Parsed(e, q))
  {
    OrRoundTrip(ts, p, e, q);
  }

  /** Whatever the parser accepts, printing its result and parsing again gives the same tree. */
  lemma {:induction false} ParsePrintParse(ts: seq<Token>, p: nat)
    requires Ready(ts, p) && ParseOr(ts, p).Success?
    ensures var e := ParseOr(ts, p).value.expr;
            var us := Print(e, 0) + [EndOfInput];
            ParseOr(us, 0) == Success(Parsed(e, |us| - 1))
  {
    var e := ParseOr(ts, p).value.expr;
    var us := Print(e, 0) + [EndOfInput];
    assert us[0..|us| - 1] == Print(e, 0);
    PrintParse(us, 0, e, |us| - 1);
  }
}
