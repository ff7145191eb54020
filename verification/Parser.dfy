/** The parser object: methods that advance a position in the token stream
    (internal/sql/parser/parse_expressions.go, parse_conditions.go). */
module Parser {
  import opened Syntax
  import opened Grammar

  datatype Parsed<+T> = Tree(value: T) | Failed

  class SqlParser {
    const tokens: seq<Token>
    var pos: nat

    ghost predicate Valid()
      reads this
    {
      pos <= |tokens|
    }

    function Rest(): seq<Token>
      requires pos <= |tokens|
      reads this
    {
      tokens[pos..]
    }

    /** A method's outcome and the new position are what the grammar says of the tokens it began with. */
    ghost predicate Follows<T>(r: Result<T>, res: Parsed<T>, start: nat)
      reads this
    {
      && start <= pos <= |tokens|
      && match r
         case Ok(v, rest) => res == Tree(v) && tokens[pos..] == rest
         case Error => res == Failed
    }

    constructor (tokens: seq<Token>)
      ensures Valid() && Rest() == tokens
    {
      this.tokens, pos := tokens, 0;
    }

    predicate Check(t: Token)
      requires pos <= |tokens|
      reads this
    {
      pos < |tokens| && tokens[pos] == t
    }

    method Advance()
      requires pos < |tokens|
      modifies this
      ensures pos == old(pos) + 1 <= |tokens|
      ensures Rest() == old(Rest())[1..]
    {
      pos := pos + 1;
    }

    method Expect(t: Token) returns (ok: bool)
      requires Valid()
      modifies this
      ensures ok <==> Next(old(Rest()), t)
      ensures old(pos) <= pos <= |tokens| && Rest() == if ok then old(Rest())[1..] else old(Rest())
    {
      ok := Check(t);
      if ok {
        Advance();
      }
    }

    predicate PredicateTailStart()
      requires pos <= |tokens|
      reads this
    {
      StartsPredicate(Rest())
    }

    method ParseExpression() returns (res: Parsed<Expr>)
      requires Valid()
      modifies this
      ensures Follows(Expression(old(Rest())), res, old(pos))
      decreases |tokens| - pos, 5
    {
      hide Term;
      var left := ParseTerm();
      if left.Failed? {
        return Failed;
      }
      res := left;
      while pos < |tokens| && IsAdditive(tokens[pos])
        invariant old(pos) <= pos <= |tokens| && res.Tree?
        invariant Expression(old(Rest())) == ExpressionTail(res.value, Rest())
        decreases |tokens| - pos
      {
        var op := tokens[pos];
        Advance();
        var right := ParseTerm();
        if right.Failed? {
          return Failed;
        }
        res := Tree(Binary(res.value, op, right.value));
      }
    }

    method ParseTerm() returns (res: Parsed<Expr>)
      requires Valid()
      modifies this
      ensures Follows(Term(old(Rest())), res, old(pos))
      ensures res.Tree? ==> pos > old(pos)
      decreases |tokens| - pos, 4
    {
      hide Factor;
      var left := ParseFactor();
      if left.Failed? {
        return Failed;
      }
      res := left;
      while pos < |tokens| && IsMultiplicative(tokens[pos])
        invariant old(pos) < pos <= |tokens| && res.Tree?
        invariant Term(old(Rest())) == TermTail(res.value, Rest())
        decreases |tokens| - pos
      {
        var op := tokens[pos];
        Advance();
        var right := ParseFactor();
        if right.Failed? {
          return Failed;
        }
        res := Tree(Binary(res.value, op, right.value));
      }
    }

    method ParseFactor() returns (res: Parsed<Expr>)
      requires Valid()
      modifies this
      ensures Follows(Factor(old(Rest())), res, old(pos))
      ensures res.Tree? ==> pos > old(pos)
      decreases |tokens| - pos, 3
    {
      hide Expression, FunctionCall, QualifiedIdentifier;
      if pos == |tokens| {
        return Failed;
      }
      var t := tokens[pos];
      if t.Plus? || t.Minus? {
        Advance();
        var operand := ParseFactor();
        if operand.Failed? {
          return Failed;
        }
        return Tree(Unary(t, operand.value));
      }
      if t.LParen? {
        Advance();
        var inner := ParseExpression();
        if inner.Failed? {
          return Failed;
        }
        var closed := Expect(RParen);
        return if closed then Tree(Paren(inner.value)) else Failed;
      }
      if t.Ident? {
        if pos + 1 < |tokens| && tokens[pos + 1].LParen? {
          res := ParseFunctionCall();
        } else {
          res := ParseQualifiedIdentifier();
        }
        return;
      }
      if IsLiteral(t) {
        Advance();
        return Tree(Literal(t));
      }
      return Failed;
    }

    method ParseQualifiedIdentifier() returns (res: Parsed<Expr>)
      requires Valid() && pos < |tokens| && tokens[pos].Ident?
      modifies this
      ensures Follows(QualifiedIdentifier(old(Rest())), res, old(pos))
      ensures pos > old(pos)
    {
      var name := tokens[pos].name;
      Advance();
      if pos + 1 < |tokens| && tokens[pos].Dot? && tokens[pos + 1].Ident? {
        Advance();
        var last := tokens[pos].name;
        Advance();
        return Tree(Column(Some(name), last));
      }
      return Tree(Column(None, name));
    }

    method ParseFunctionCall() returns (res: Parsed<Expr>)
      requires Valid() && pos + 1 < |tokens| && tokens[pos].Ident? && tokens[pos + 1].LParen?
      modifies this
      ensures Follows(FunctionCall(old(Rest())), res, old(pos))
      ensures res.Tree? ==> pos > old(pos)
      decreases |tokens| - pos, 2
    {
      hide Arguments;
      var name := tokens[pos].name;
      Advance();
      Advance();
      ghost var inside := Rest();
      assert inside == old(Rest())[2..];
      if Check(RParen) {
        Advance();
        return Tree(Call(name, NoArgs));
      }
      if Check(Star) {
        Advance();
        var closed := Expect(RParen);
        return if closed then Tree(Call(name, StarArg)) else Failed;
      }
      var distinct := Expect(Distinct);
      var items := ParseArguments();
      if items.Failed? {
        return Failed;
      }
      var closed := Expect(RParen);
      return if closed then Tree(Call(name, ArgList(distinct, items.value))) else Failed;
    }

    method ParseArguments() returns (res: Parsed<Selects>)
      requires Valid()
      modifies this
      ensures Follows(Arguments(old(Rest())), res, old(pos))
      decreases |tokens| - pos, 30
    {
      hide SelectExpression;
      var first := ParseSelectExpression();
      if first.Failed? {
        return Failed;
      }
      res := Tree(OneSelect(first.value));
      while Check(Comma)
        invariant old(pos) <= pos <= |tokens| && res.Tree?
        invariant Arguments(old(Rest())) == ArgumentsTail(res.value, Rest())
        decreases |tokens| - pos
      {
        Advance();
        var arg := ParseSelectExpression();
        if arg.Failed? {
          return Failed;
        }
        res := Tree(MoreSelects(res.value, arg.value));
      }
    }

    method ParseSelectExpression() returns (res: Parsed<Select>)
      requires Valid()
      modifies this
      ensures Follows(SelectExpression(old(Rest())), res, old(pos))
      decreases |tokens| - pos, 25
    {
      hide Expression, OrCondition, SelectFromExpression;
      if Check(Not) {
        var c := ParseOrCondition();
        return if c.Failed? then Failed else Tree(OfCond(c.value));
      }
      var e := ParseExpression();
      if e.Failed? {
        return Failed;
      }
      res := SelectExpressionFromExpression(e.value);
    }

    method SelectExpressionFromExpression(e: Expr) returns (res: Parsed<Select>)
      requires Valid()
      modifies this
      ensures Follows(SelectFromExpression(e, old(Rest())), res, old(pos))
      decreases |tokens| - pos, 24
    {
      hide Continuation, StartsPredicate;
      if PredicateTailStart() || Check(And) || Check(Or) {
        var c := ParseConditionContinuationFromExpr(e);
        return if c.Failed? then Failed else Tree(OfCond(c.value));
      }
      return Tree(OfExpr(e));
    }

    method ParseOrCondition() returns (res: Parsed<Cond>)
      requires Valid()
      modifies this
      ensures Follows(OrCondition(old(Rest())), res, old(pos))
      decreases |tokens| - pos, 20
    {
      hide AndCondition, OrTail;
      var left := ParseAndCondition();
      if left.Failed? {
        return Failed;
      }
      res := ParseOrTail(left.value);
    }

    /** The loop over OR. */
    method ParseOrTail(left: Cond) returns (res: Parsed<Cond>)
      requires Valid()
      modifies this
      ensures Follows(OrTail(left, old(Rest())), res, old(pos))
      decreases |tokens| - pos, 20
    {
      hide AndCondition;
      res := Tree(left);
      while Check(Or)
        invariant old(pos) <= pos <= |tokens| && res.Tree?
        invariant OrTail(left, old(Rest())) == OrTail(res.value, Rest())
        decreases |tokens| - pos
      {
        Advance();
        var right := ParseAndCondition();
        if right.Failed? {
          return Failed;
        }
        res := Tree(BoolOp(res.value, Or, right.value));
      }
    }

    method ParseAndCondition() returns (res: Parsed<Cond>)
      requires Valid()
      modifies this
      ensures Follows(AndCondition(old(Rest())), res, old(pos))
      decreases |tokens| - pos, 19
    {
      hide NotCondition, AndTail;
      var left := ParseNotCondition();
      if left.Failed? {
        return Failed;
      }
      res := ParseAndTail(left.value);
    }

    /** The loop over AND. */
    method ParseAndTail(left: Cond) returns (res: Parsed<Cond>)
      requires Valid()
      modifies this
      ensures Follows(AndTail(left, old(Rest())), res, old(pos))
      decreases |tokens| - pos, 19
    {
      hide NotCondition;
      res := Tree(left);
      while Check(And)
        invariant old(pos) <= pos <= |tokens| && res.Tree?
        invariant AndTail(left, old(Rest())) == AndTail(res.value, Rest())
        decreases |tokens| - pos
      {
        Advance();
        var right := ParseNotCondition();
        if right.Failed? {
          return Failed;
        }
        res := Tree(BoolOp(res.value, And, right.value));
      }
    }

    method ParseNotCondition() returns (res: Parsed<Cond>)
      requires Valid()
      modifies this
      ensures Follows(NotCondition(old(Rest())), res, old(pos))
      decreases |tokens| - pos, 18
    {
      hide ConditionPrimary;
      if Check(Not) {
        Advance();
        var inner := ParseNotCondition();
        return if inner.Failed? then Failed else Tree(NotC(inner.value));
      }
      res := ParseConditionPrimary();
    }

    method ParseConditionPrimary() returns (res: Parsed<Cond>)
      requires Valid()
      modifies this
      ensures Follows(ConditionPrimary(old(Rest())), res, old(pos))
      decreases |tokens| - pos, 17
    {
      hide Expression, Continuation, PredicateOrTruth;
      if Check(LParen) {
        Advance();
        var e := ParseExpression();
        if e.Failed? {
          return Failed;
        }
        if Check(RParen) {
          Advance();
          res := ParsePredicateOrTruth(Paren(e.value));
          return;
        }
        var c := ParseConditionContinuationFromExpr(e.value);
        if c.Failed? {
          return Failed;
        }
        var closed := Expect(RParen);
        return if closed then Tree(ParenC(c.value)) else Failed;
      }
      var e := ParseExpression();
      if e.Failed? {
        return Failed;
      }
      res := ParsePredicateOrTruth(e.value);
    }

    method ParsePredicateOrTruth(e: Expr) returns (res: Parsed<Cond>)
      requires Valid()
      modifies this
      ensures Follows(PredicateOrTruth(e, old(Rest())), res, old(pos))
      decreases |tokens| - pos, 16
    {
      hide PredicateTail, StartsPredicate;
      if PredicateTailStart() {
        res := ParsePredicateTail(e);
      } else {
        res := Tree(Truth(e));
      }
    }

    method ParseConditionContinuationFromExpr(e: Expr) returns (res: Parsed<Cond>)
      requires Valid()
      modifies this
      ensures Follows(Continuation(e, old(Rest())), res, old(pos))
      decreases |tokens| - pos, 22
    {
      hide PredicateTail, StartsPredicate, OrTailFromLeft;
      if PredicateTailStart() {
        var c := ParsePredicateTail(e);
        if c.Failed? {
          return Failed;
        }
        res := ParseOrConditionTailFromLeft(c.value);
      } else if Check(And) || Check(Or) {
        res := ParseOrConditionTailFromLeft(Truth(e));
      } else {
        res := Failed;
      }
    }

    method ParseOrConditionTailFromLeft(c: Cond) returns (res: Parsed<Cond>)
      requires Valid()
      modifies this
      ensures Follows(OrTailFromLeft(c, old(Rest())), res, old(pos))
      decreases |tokens| - pos, 21
    {
      hide AndTail, OrTail;
      var left := ParseAndTail(c);
      if left.Failed? {
        return Failed;
      }
      res := ParseOrTail(left.value);
    }

    method ParsePredicateTail(e: Expr) returns (res: Parsed<Cond>)
      requires Valid() && PredicateTailStart()
      modifies this
      ensures Follows(PredicateTail(e, old(Rest())), res, old(pos))
      ensures res.Tree? ==> pos > old(pos)
      decreases |tokens| - pos, 7
    {
      hide Expression, Membership;
      var t := tokens[pos];
      if IsComparison(t) {
        Advance();
        var right := ParseExpression();
        return if right.Failed? then Failed else Tree(Compare(e, t, right.value));
      }
      if t.Is? {
        Advance();
        var negated := Expect(Not);
        var isNull := Expect(Null);
        return if isNull then Tree(IsNull(e, negated)) else Failed;
      }
      if t.Not? {
        Advance();
        res := ParseMembership(e, true);
      } else {
        res := ParseMembership(e, false);
      }
    }

    method ParseMembership(e: Expr, negated: bool) returns (res: Parsed<Cond>)
      requires Valid() && pos < |tokens| && (tokens[pos].Like? || tokens[pos].In? || tokens[pos].Between?)
      modifies this
      ensures Follows(Membership(e, negated, old(Rest())), res, old(pos))
      ensures res.Tree? ==> pos > old(pos)
      decreases |tokens| - pos, 6
    {
      hide Expression, ExpressionList;
      var t := tokens[pos];
      Advance();
      if t.Like? {
        var p := ParseExpression();
        return if p.Failed? then Failed else Tree(LikeP(e, negated, p.value));
      }
      if t.In? {
        var v := ParseParenExpressionList();
        return if v.Failed? then Failed else Tree(InP(e, negated, v.value));
      }
      var lo := ParseExpression();
      if lo.Failed? {
        return Failed;
      }
      var conjoined := Expect(And);
      if !conjoined {
        return Failed;
      }
      var hi := ParseExpression();
      return if hi.Failed? then Failed else Tree(BetweenP(e, negated, lo.value, hi.value));
    }

    method ParseParenExpressionList() returns (res: Parsed<Exprs>)
      requires Valid()
      modifies this
      ensures Follows(ExpressionList(old(Rest())), res, old(pos))
      decreases |tokens| - pos, 6
    {
      hide Expression;
      var begun := Expect(LParen);
      if !begun {
        return Failed;
      }
      var first := ParseExpression();
      if first.Failed? {
        return Failed;
      }
      var values := OneExpr(first.value);
      ghost var all := ExpressionListTail(values, Rest());
      while Check(Comma)
        invariant old(pos) < pos <= |tokens|
        invariant all == ExpressionListTail(values, Rest())
        decreases |tokens| - pos
      {
        Advance();
        var v := ParseExpression();
        if v.Failed? {
          return Failed;
        }
        values := MoreExprs(values, v.value);
      }
      var closed := Expect(RParen);
      return if closed then Tree(values) else Failed;
    }

    /** The path of a select column whose first identifier was consumed before it was known to begin an expression. */
    method ParseExpressionFromFactor(factor: Expr) returns (res: Parsed<Expr>)
      requires Valid()
      modifies this
      ensures Follows(ExpressionFromFactor(factor, old(Rest())), res, old(pos))
    {
      hide Factor, Term;
      res := Tree(factor);
      while pos < |tokens| && IsMultiplicative(tokens[pos])
        invariant old(pos) <= pos <= |tokens| && res.Tree?
        invariant TermTail(factor, old(Rest())) == TermTail(res.value, Rest())
        decreases |tokens| - pos
      {
        var op := tokens[pos];
        Advance();
        var right := ParseFactor();
        if right.Failed? {
          return Failed;
        }
        res := Tree(Binary(res.value, op, right.value));
      }
      while pos < |tokens| && IsAdditive(tokens[pos])
        invariant old(pos) <= pos <= |tokens| && res.Tree?
        invariant ExpressionFromFactor(factor, old(Rest())) == ExpressionTail(res.value, Rest())
        decreases |tokens| - pos
      {
        var op := tokens[pos];
        Advance();
        var right := ParseTerm();
        if right.Failed? {
          return Failed;
        }
        res := Tree(Binary(res.value, op, right.value));
      }
    }
  }
}
