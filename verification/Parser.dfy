/** The expression parser: a cursor over the tokens that its methods advance. */
module Parser {
  import opened Types
  import opened Values
  import opened ExprEval
  import opened ParserModel

  class Parser {
    const tokens: seq<Token>
    var pos: nat

    /** The cursor is on a token, and the tokens end with the end of input. */
    ghost predicate Valid()
      reads this
    {
      Ready(tokens, pos)
    }

    constructor (ts: seq<Token>)
      requires Ready(ts, 0)
      ensures Valid() && tokens == ts && pos == 0
    {
      tokens, pos := ts, 0;
    }

    /** The cursor after a parse: behind the expression, or on some token at or before the end of input. */
    ghost predicate Outcome(spec: Result<Parsed>, r: Result<Expr>, start: nat)
      reads this
    {
      && Valid() && start <= pos
      && match spec
         case Success(x) => r == Success(x.expr) && pos == x.next
         case Failure(st) => r == Failure(st)
    }

    method Expect(t: Token) returns (status: Status)
      requires Valid() && t != EndOfInput
      modifies this
      ensures Valid()
      ensures if tokens[old(pos)] == t then status == Ok && pos == old(pos) + 1
              else status == InvalidArgument && pos == old(pos)
    {
      if tokens[pos] != t {
        return InvalidArgument;
      }
      pos := pos + 1;
      status := Ok;
    }

    method ParsePrimary() returns (r: Result<Expr>)
      requires Valid()
      modifies this
      ensures Outcome(ParserModel.ParsePrimary(tokens, old(pos)), r, old(pos))
      decreases |tokens| - pos, 0
    {
      if tokens[pos] == LParen {
        pos := pos + 1;
        var inner := ParseOrExpr();
        if inner.Failure? {
          return inner;
        }
        var status := Expect(RParen);
        if status != Ok {
          return Failure(status);
        }
        return inner;
      }
      if tokens[pos].Identifier? {
        r := Success(ColumnRef(tokens[pos].name));
        pos := pos + 1;
        return;
      }
      var v := ParseLiteralToken();
      r := if v.Success? then Success(Literal(v.value)) else Failure(v.status);
    }

    method ParseLiteralToken() returns (v: Result<Value>)
      requires Valid()
      modifies this
      ensures Valid() && v == ParseLiteral(tokens[old(pos)])
      ensures if v.Success? then pos == old(pos) + 1 else v.status == InvalidArgument && old(pos) <= pos
    {
      var t := tokens[pos];
      v := ParseLiteral(t);
      if v.Success? || t.IntLiteral? || t.FloatLiteral? {
        pos := pos + 1;
      }
    }

    method ParseComparison() returns (r: Result<Expr>)
      requires Valid()
      modifies this
      ensures Outcome(ParserModel.ParseComparison(tokens, old(pos)), r, old(pos))
      decreases |tokens| - pos, 1
    {
      var left := ParsePrimary();
      if left.Failure? {
        return left;
      }
      r := left;
      if IsComparison(tokens[pos]) {
        var op := tokens[pos].op;
        pos := pos + 1;
        var right := ParsePrimary();
        if right.Failure? {
          return right;
        }
        r := Success(Binary(left.value, op, right.value));
      }
    }

    method ParseAndExpr() returns (r: Result<Expr>)
      requires Valid()
      modifies this
      ensures Outcome(ParserModel.ParseAnd(tokens, old(pos)), r, old(pos))
      decreases |tokens| - pos, 2
    {
      var left := ParseComparison();
      if left.Failure? {
        return left;
      }
      var expr := left.value;
      while tokens[pos] == OperatorToken(And)
        invariant Valid() && old(pos) < pos && Printable(expr)
        invariant AndRest(tokens, pos, expr) == ParseAnd(tokens, old(pos))
        decreases |tokens| - pos
      {
        pos := pos + 1;
        var right := ParseComparison();
        if right.Failure? {
          return right;
        }
        expr := Binary(expr, And, right.value);
      }
      r := Success(expr);
    }

    method ParseOrExpr() returns (r: Result<Expr>)
      requires Valid()
      modifies this
      ensures Outcome(ParseOr(tokens, old(pos)), r, old(pos))
      decreases |tokens| - pos, 4
    {
      var left := ParseAndExpr();
      if left.Failure? {
        return left;
      }
      var expr := left.value;
      while tokens[pos] == OperatorToken(Or)
        invariant Valid() && old(pos) < pos && Printable(expr)
        invariant OrRest(tokens, pos, expr) == ParseOr(tokens, old(pos))
        decreases |tokens| - pos
      {
        pos := pos + 1;
        var right := ParseAndExpr();
        if right.Failure? {
          return right;
        }
        expr := Binary(expr, Or, right.value);
      }
      r := Success(expr);
    }

    method ParseWhereClause() returns (r: Result<Expr>)
      requires Valid()
      modifies this
      ensures Valid() && old(pos) <= pos
      ensures if tokens[old(pos)] == Where then Outcome(ParseOr(tokens, old(pos) + 1), r, old(pos) + 1)
              else r == Failure(InvalidArgument) && pos == old(pos)
    {
      var status := Expect(Where);
      if status != Ok {
        return Failure(status);
      }
      r := ParseOrExpr();
    }
  }
}
