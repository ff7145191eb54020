/** What the parser returns: a tree whose tokens, in order, are exactly those consumed, and whose shape is
    that of the stated precedence (internal/sql/parser/parse_expressions.go, parse_conditions.go). The trees
    that have the shape come back from their tokens in ParseBack. */
module ParsedTrees {
  import opened Syntax
  import opened Grammar

  lemma {:induction false} ExpressionParsed(ts: seq<Token>)
    requires Expression(ts).Ok?
    ensures var r := Expression(ts);
            && ts == YieldE(r.value) + r.rest
            && IsExpression(r.value)
    decreases |ts|, 5
  {
    hide IsExpression, IsTerm, IsFactor, IsSelect, AreSelects, AreExpressions, IsPredicate, IsPrimary, IsNot, IsAnd,
      IsOr, IsOpenAnd, IsOpenOr, YieldE, Term, ExpressionTail;
    TermParsed(ts);
    var left := Term(ts);
    Widen(left.value);
    ExpressionTailParsed(left.value, left.rest);
  }

  lemma {:induction false} ExpressionTailParsed(left: Expr, ts: seq<Token>)
    requires ExpressionTail(left, ts).Ok? && IsExpression(left)
    ensures var r := ExpressionTail(left, ts);
            && YieldE(left) + ts == YieldE(r.value) + r.rest
            && IsExpression(r.value)
    decreases |ts|, 5
  {
    hide IsExpression, IsTerm, IsFactor, IsSelect, AreSelects, AreExpressions, IsPredicate, IsPrimary, IsNot, IsAnd,
      IsOr, IsOpenAnd, IsOpenOr, YieldE, Term;
    if ts != [] && IsAdditive(ts[0]) {
      TermParsed(ts[1..]);
      var right := Term(ts[1..]);
      SumShape(left, ts[0], right.value);
      ExpressionTailParsed(Binary(left, ts[0], right.value), right.rest);
      assert ts == [ts[0]] + ts[1..];
    }
  }

  lemma {:induction false} TermParsed(ts: seq<Token>)
    requires Term(ts).Ok?
    ensures var r := Term(ts);
            && ts == YieldE(r.value) + r.rest
            && IsTerm(r.value)
    decreases |ts|, 4
  {
    hide IsExpression, IsTerm, IsFactor, IsSelect, AreSelects, AreExpressions, IsPredicate, IsPrimary, IsNot, IsAnd,
      IsOr, IsOpenAnd, IsOpenOr, YieldE, Factor, TermTail;
    FactorParsed(ts);
    var left := Factor(ts);
    Widen(left.value);
    TermTailParsed(left.value, left.rest);
  }

  lemma {:induction false} TermTailParsed(left: Expr, ts: seq<Token>)
    requires TermTail(left, ts).Ok? && IsTerm(left)
    ensures var r := TermTail(left, ts);
            && YieldE(left) + ts == YieldE(r.value) + r.rest
            && IsTerm(r.value)
    decreases |ts|, 4
  {
    hide IsExpression, IsTerm, IsFactor, IsSelect, AreSelects, AreExpressions, IsPredicate, IsPrimary, IsNot, IsAnd,
      IsOr, IsOpenAnd, IsOpenOr, YieldE, Factor;
    if ts != [] && IsMultiplicative(ts[0]) {
      FactorParsed(ts[1..]);
      var right := Factor(ts[1..]);
      ProductShape(left, ts[0], right.value);
      TermTailParsed(Binary(left, ts[0], right.value), right.rest);
      assert ts == [ts[0]] + ts[1..];
    }
  }

  lemma {:induction false} FactorParsed(ts: seq<Token>)
    requires Factor(ts).Ok?
    ensures var r := Factor(ts);
            && ts == YieldE(r.value) + r.rest
            && IsFactor(r.value)
    decreases |ts|, 3
  {
    hide Expression, FunctionCall, IsExpression, IsTerm, AreSelects, YieldA, Term, AreExpressions, IsPredicate;
    assert ts == [ts[0]] + ts[1..];
    if ts[0].Plus? || ts[0].Minus? {
      FactorParsed(ts[1..]);
    } else if ts[0].LParen? {
      ExpressionParsed(ts[1..]);
      var inner := Expression(ts[1..]);
      assert inner.rest == [RParen] + inner.rest[1..];
    } else if ts[0].Ident? {
      if |ts| > 1 && ts[1].LParen? {
        CallParsed(ts);
      } else {
        assert |ts| > 2 ==> ts == [ts[0], ts[1], ts[2]] + ts[3..];
      }
    }
  }

  lemma {:induction false} CallParsed(ts: seq<Token>)
    requires |ts| > 1 && ts[0].Ident? && ts[1].LParen? && FunctionCall(ts).Ok?
    ensures var r := FunctionCall(ts);
            && ts == YieldE(r.value) + r.rest
            && IsFactor(r.value)
    decreases |ts|, 2
  {
    hide Arguments, IsExpression, IsTerm, IsSelect, AreSelects, YieldSs;
    var inside := ts[2..];
    assert ts == [ts[0], LParen] + inside;
    if Next(inside, RParen) {
      assert inside == [RParen] + inside[1..];
    } else if Next(inside, Star) {
      assert inside == [Star, RParen] + inside[2..];
    } else {
      ArgListParsed(ts);
    }
  }

  lemma {:induction false} ArgListParsed(ts: seq<Token>)
    requires |ts| > 1 && ts[0].Ident? && ts[1].LParen? && FunctionCall(ts).Ok?
    requires !Next(ts[2..], RParen) && !Next(ts[2..], Star)
    ensures var r := FunctionCall(ts);
            && ts == YieldE(r.value) + r.rest
            && IsFactor(r.value)
    decreases |ts|, 1
  {
    hide Arguments, IsExpression, IsTerm, IsSelect, AreSelects, YieldSs, YieldE;
    var inside := ts[2..];
    var distinct := Next(inside, Distinct);
    var from := if distinct then inside[1..] else inside;
    ArgumentsParsed(from);
    var items := Arguments(from);
    CallTokens(ts[0].name, distinct, items.value, items.rest);
    assert ts == [ts[0], LParen] + inside && inside == (if distinct then [Distinct] else []) + from;
  }

  lemma CallTokens(name: string, distinct: bool, items: Selects, rest: seq<Token>)
    requires Next(rest, RParen)
    ensures var from := YieldSs(items) + rest;
            [Ident(name), LParen] + ((if distinct then [Distinct] else []) + from) == YieldE(Call(name, ArgList(distinct, items))) + rest[1..]
  {
    hide YieldSs;
    assert rest == [RParen] + rest[1..];
  }

  lemma {:induction false} ArgumentsParsed(ts: seq<Token>)
    requires Arguments(ts).Ok?
    ensures var r := Arguments(ts);
            && ts == YieldSs(r.value) + r.rest
            && AreSelects(r.value)
    decreases |ts|, 30
  {
    hide IsExpression, IsTerm, IsFactor, IsSelect, AreExpressions, IsPredicate, IsPrimary, IsNot, IsAnd, IsOr,
      IsOpenAnd, IsOpenOr, SelectExpression, ArgumentsTail;
    SelectParsed(ts);
    var s := SelectExpression(ts);
    ArgumentsTailParsed(OneSelect(s.value), s.rest);
  }

  lemma {:induction false} ArgumentsTailParsed(front: Selects, ts: seq<Token>)
    requires ArgumentsTail(front, ts).Ok? && AreSelects(front)
    ensures var r := ArgumentsTail(front, ts);
            && YieldSs(front) + ts == YieldSs(r.value) + r.rest
            && AreSelects(r.value)
    decreases |ts|, 30
  {
    hide IsExpression, IsTerm, IsFactor, IsSelect, AreExpressions, IsPredicate, IsPrimary, IsNot, IsAnd, IsOr,
      IsOpenAnd, IsOpenOr, SelectExpression;
    if Next(ts, Comma) {
      SelectParsed(ts[1..]);
      var s := SelectExpression(ts[1..]);
      ArgumentsTailParsed(MoreSelects(front, s.value), s.rest);
      assert ts == [Comma] + ts[1..];
    }
  }

  lemma {:induction false} SelectParsed(ts: seq<Token>)
    requires SelectExpression(ts).Ok?
    ensures var r := SelectExpression(ts);
            && ts == YieldS(r.value) + r.rest
            && IsSelect(r.value)
    decreases |ts|, 25
  {
    if Next(ts, Not) {
      OrParsed(ts);
    } else {
      ExpressionParsed(ts);
      var e := Expression(ts);
      if StartsPredicate(e.rest) || Next(e.rest, And) || Next(e.rest, Or) {
        ContinuationParsed(e.value, e.rest);
      }
    }
  }

  /** The continuation reads on from an expression: predicate first, then AND before OR. */
  lemma {:induction false} ContinuationParsed(e: Expr, ts: seq<Token>)
    requires Continuation(e, ts).Ok? && IsExpression(e)
    ensures var r := Continuation(e, ts);
            && YieldE(e) + ts == YieldC(r.value) + r.rest
            && IsOpenOr(r.value)
            && !r.value.Truth?
    decreases |ts|, 22
  {
    if StartsPredicate(ts) {
      PredicateParsed(e, ts);
      var c := PredicateTail(e, ts);
      OrFromLeftParsed(c.value, c.rest);
    } else {
      OrFromLeftParsed(Truth(e), ts);
    }
  }

  lemma {:induction false} OrFromLeftParsed(c: Cond, ts: seq<Token>)
    requires OrTailFromLeft(c, ts).Ok? && IsPredicate(c)
    ensures var r := OrTailFromLeft(c, ts);
            && YieldC(c) + ts == YieldC(r.value) + r.rest && IsOpenOr(r.value)
            && (!c.Truth? || Next(ts, And) || Next(ts, Or) ==> !r.value.Truth?)
    decreases |ts|, 21
  {
    hide IsExpression, IsTerm, IsFactor, IsSelect, AreSelects, AreExpressions, IsPredicate, IsPrimary, IsNot, IsAnd,
      IsOr, IsOpenAnd, IsOpenOr, AndTail, OrTail, YieldC;
    WidenCondition(c);
    AndTailParsed(c, ts);
    var left := AndTail(c, ts);
    WidenCondition(left.value);
    OrTailParsed(left.value, left.rest);
  }

  lemma {:induction false} OrParsed(ts: seq<Token>)
    requires OrCondition(ts).Ok?
    ensures var r := OrCondition(ts);
            && ts == YieldC(r.value) + r.rest
            && IsOr(r.value)
            && (Next(ts, Not) ==> StartsWithNot(r.value))
    decreases |ts|, 20
  {
    hide IsExpression, IsTerm, IsFactor, IsSelect, AreSelects, AreExpressions, IsPredicate, IsPrimary, IsNot, IsAnd,
      IsOr, IsOpenAnd, IsOpenOr, AndCondition, OrTail, YieldC, StartsWithNot;
    AndParsed(ts);
    var left := AndCondition(ts);
    WidenCondition(left.value);
    OrTailParsed(left.value, left.rest);
  }

  lemma {:induction false} OrTailParsed(left: Cond, ts: seq<Token>)
    requires OrTail(left, ts).Ok?
    ensures var r := OrTail(left, ts);
            && YieldC(left) + ts == YieldC(r.value) + r.rest
            && (IsOr(left) ==> IsOr(r.value)) && (IsOpenOr(left) ==> IsOpenOr(r.value))
            && (StartsWithNot(left) ==> StartsWithNot(r.value)) && (!left.Truth? || Next(ts, Or) ==> !r.value.Truth?)
    decreases |ts|, 20
  {
    hide IsExpression, IsTerm, IsFactor, IsSelect, AreSelects, AreExpressions, IsPredicate, IsPrimary, IsNot, IsAnd,
      IsOr, IsOpenAnd, IsOpenOr, AndCondition, YieldC, StartsWithNot;
    if Next(ts, Or) {
      AndParsed(ts[1..]);
      var right := AndCondition(ts[1..]);
      OrShape(left, right.value);
      OrTailParsed(BoolOp(left, Or, right.value), right.rest);
      assert ts == [Or] + ts[1..];
    }
  }

  lemma {:induction false} AndParsed(ts: seq<Token>)
    requires AndCondition(ts).Ok?
    ensures var r := AndCondition(ts);
            && ts == YieldC(r.value) + r.rest
            && IsAnd(r.value)
            && (Next(ts, Not) ==> StartsWithNot(r.value))
    decreases |ts|, 19
  {
    hide IsExpression, IsTerm, IsFactor, IsSelect, AreSelects, AreExpressions, IsPredicate, IsPrimary, IsNot, IsAnd,
      IsOr, IsOpenAnd, IsOpenOr, NotCondition, AndTail, YieldC;
    NotParsed(ts);
    var left := NotCondition(ts);
    WidenCondition(left.value);
    AndTailParsed(left.value, left.rest);
  }

  lemma {:induction false} AndTailParsed(left: Cond, ts: seq<Token>)
    requires AndTail(left, ts).Ok?
    ensures var r := AndTail(left, ts);
            && YieldC(left) + ts == YieldC(r.value) + r.rest
            && (IsAnd(left) ==> IsAnd(r.value)) && (IsOpenAnd(left) ==> IsOpenAnd(r.value))
            && (StartsWithNot(left) ==> StartsWithNot(r.value)) && (!left.Truth? || Next(ts, And) ==> !r.value.Truth?)
            && (r.value != left || !Next(ts, And)) && (!Next(ts, And) ==> r.value == left && r.rest == ts)
    decreases |ts|, 19
  {
    hide IsExpression, IsTerm, IsFactor, IsSelect, AreSelects, AreExpressions, IsPredicate, IsPrimary, IsNot, IsAnd,
      IsOr, IsOpenAnd, IsOpenOr, NotCondition, YieldC, StartsWithNot;
    if Next(ts, And) {
      NotParsed(ts[1..]);
      var right := NotCondition(ts[1..]);
      AndShape(left, right.value);
      AndTailParsed(BoolOp(left, And, right.value), right.rest);
      assert ts == [And] + ts[1..];
    }
  }

  lemma {:induction false} NotParsed(ts: seq<Token>)
    requires NotCondition(ts).Ok?
    ensures var r := NotCondition(ts);
            && ts == YieldC(r.value) + r.rest
            && IsNot(r.value)
            && (Next(ts, Not) ==> r.value.NotC?)
    decreases |ts|, 18
  {
    if Next(ts, Not) {
      NotParsed(ts[1..]);
      assert ts == [Not] + ts[1..];
    } else {
      PrimaryParsed(ts);
    }
  }

  lemma {:induction false} PrimaryParsed(ts: seq<Token>)
    requires ConditionPrimary(ts).Ok?
    ensures var r := ConditionPrimary(ts);
            && ts == YieldC(r.value) + r.rest
            && IsPrimary(r.value)
            && !r.value.NotC?
    decreases |ts|, 17
  {
    if Next(ts, LParen) {
      ParenthesesParsed(ts);
    } else {
      hide IsTerm, PredicateOrTruth, Expression;
      ExpressionParsed(ts);
      var e := Expression(ts);
      FirstToken(e.value);
      PredicateOrTruthParsed(e.value, e.rest);
    }
  }

  lemma {:induction false} ParenthesesParsed(ts: seq<Token>)
    requires ConditionPrimary(ts).Ok? && Next(ts, LParen)
    ensures var r := ConditionPrimary(ts);
            && ts == YieldC(r.value) + r.rest
            && IsPrimary(r.value)
            && !r.value.NotC?
    decreases |ts|, 16
  {
    hide Expression, Continuation, PredicateOrTruth, IsOpenOr, IsExpression, YieldE, IsPredicate, IsPlain;
    ExpressionParsed(ts[1..]);
    var e := Expression(ts[1..]);
    assert ts == [LParen] + ts[1..];
    if Next(e.rest, RParen) {
      ParenShape(e.value);
      PredicateOrTruthParsed(Paren(e.value), e.rest[1..]);
      InParens(YieldE(e.value), e.rest);
    } else {
      ContinuationParsed(e.value, e.rest);
      var c := Continuation(e.value, e.rest);
      InParens(YieldC(c.value), c.rest);
    }
  }

  lemma InParens(inside: seq<Token>, rest: seq<Token>)
    requires Next(rest, RParen)
    ensures [LParen] + (inside + rest) == [LParen] + inside + [RParen] + rest[1..]
  {
    assert rest == [RParen] + rest[1..];
  }

  lemma ParenShape(e: Expr)
    requires IsExpression(e)
    ensures IsExpression(Paren(e))
    ensures IsPlain(Paren(e))
    ensures YieldE(Paren(e)) == [LParen] + YieldE(e) + [RParen]
  {
  }

  lemma {:induction false} PredicateOrTruthParsed(e: Expr, ts: seq<Token>)
    requires PredicateOrTruth(e, ts).Ok? && IsExpression(e)
    ensures var r := PredicateOrTruth(e, ts);
            YieldE(e) + ts == YieldC(r.value) + r.rest && IsPredicate(r.value) && Subject(r.value) == e
    decreases |ts|, 16
  {
    if StartsPredicate(ts) {
      PredicateParsed(e, ts);
    }
  }

  lemma {:induction false} PredicateParsed(e: Expr, ts: seq<Token>)
    requires StartsPredicate(ts) && PredicateTail(e, ts).Ok? && IsExpression(e)
    ensures var r := PredicateTail(e, ts);
            && YieldE(e) + ts == YieldC(r.value) + r.rest && IsPredicate(r.value) && !r.value.Truth? && Subject(r.value) == e
    decreases |ts|, 7
  {
    hide Expression, Membership, IsExpression, YieldE;
    assert ts == [ts[0]] + ts[1..];
    if IsComparison(ts[0]) {
      ExpressionParsed(ts[1..]);
      var right := Expression(ts[1..]);
      CompareTokens(YieldE(e), ts[0], YieldE(right.value), right.rest);
    } else if ts[0].Is? {
      IsNullParsed(e, ts);
    } else if ts[0].Not? {
      MembershipParsed(e, true, ts[1..]);
    } else {
      MembershipParsed(e, false, ts);
    }
  }

  lemma ListTokens(front: seq<Token>, e: seq<Token>, rest: seq<Token>)
    ensures front + ([Comma] + (e + rest)) == front + [Comma] + e + rest
  {
  }

  lemma CompareTokens(e: seq<Token>, op: Token, right: seq<Token>, rest: seq<Token>)
    ensures e + ([op] + (right + rest)) == e + ([op] + right) + rest
  {
  }

  lemma IsNullParsed(e: Expr, ts: seq<Token>)
    requires StartsPredicate(ts) && ts[0].Is? && PredicateTail(e, ts).Ok? && IsExpression(e)
    ensures var r := PredicateTail(e, ts);
            && YieldE(e) + ts == YieldC(r.value) + r.rest && IsPredicate(r.value) && !r.value.Truth? && Subject(r.value) == e
  {
    hide Expression, Membership, IsExpression, YieldE;
    var negated := Next(ts[1..], Not);
    var after := if negated then ts[2..] else ts[1..];
    assert ts == [Is] + (Negation(negated) + ([Null] + after[1..]));
    IsNullTokens(YieldE(e), Negation(negated), after[1..]);
  }

  lemma IsNullTokens(e: seq<Token>, n: seq<Token>, rest: seq<Token>)
    ensures e + ([Is] + (n + ([Null] + rest))) == e + ([Is] + (n + [Null])) + rest
  {
  }

  lemma {:induction false} MembershipParsed(e: Expr, negated: bool, ts: seq<Token>)
    requires ts != [] && (ts[0].Like? || ts[0].In? || ts[0].Between?) && Membership(e, negated, ts).Ok? && IsExpression(e)
    ensures var r := Membership(e, negated, ts);
            && YieldE(e) + Negation(negated) + ts == YieldC(r.value) + r.rest
            && IsPredicate(r.value) && !r.value.Truth? && Subject(r.value) == e
    decreases |ts|, 6
  {
    hide Expression, ExpressionList, IsExpression, IsTerm, IsFactor, AreExpressions, YieldE, YieldEs;
    assert ts == [ts[0]] + ts[1..];
    match ts[0]
    case Like => ExpressionParsed(ts[1..]);
    case In => ExpressionListParsed(ts[1..]);
    case Between => BetweenParsed(e, negated, ts);
  }

  lemma {:induction false} BetweenParsed(e: Expr, negated: bool, ts: seq<Token>)
    requires ts != [] && ts[0].Between? && Membership(e, negated, ts).Ok? && IsExpression(e)
    ensures var r := Membership(e, negated, ts);
            && YieldE(e) + Negation(negated) + ts == YieldC(r.value) + r.rest
            && IsPredicate(r.value) && !r.value.Truth? && Subject(r.value) == e
    decreases |ts|, 5
  {
    hide Expression, ExpressionList, IsExpression, IsTerm, IsFactor, AreExpressions, YieldE, YieldEs;
    ExpressionParsed(ts[1..]);
    var lo := Expression(ts[1..]);
    ExpressionParsed(lo.rest[1..]);
    var hi := Expression(lo.rest[1..]);
    assert ts == [Between] + (YieldE(lo.value) + ([And] + (YieldE(hi.value) + hi.rest)));
    BetweenTokens(YieldE(e), Negation(negated), YieldE(lo.value), YieldE(hi.value), hi.rest);
  }

  lemma BetweenTokens(e: seq<Token>, n: seq<Token>, lo: seq<Token>, hi: seq<Token>, rest: seq<Token>)
    ensures e + n + ([Between] + (lo + ([And] + (hi + rest)))) == e + (n + ([Between] + (lo + ([And] + hi)))) + rest
  {
  }

  lemma {:induction false} ExpressionListParsed(ts: seq<Token>)
    requires ExpressionList(ts).Ok?
    ensures var r := ExpressionList(ts);
            && ts == [LParen] + YieldEs(r.value) + [RParen] + r.rest
            && AreExpressions(r.value)
    decreases |ts|, 6
  {
    hide IsExpression, IsTerm, IsFactor, IsSelect, AreSelects, IsPredicate, IsPrimary, IsNot, IsAnd, IsOr, IsOpenAnd,
      IsOpenOr, Expression, ExpressionListTail;
    assert ts == [LParen] + ts[1..];
    ExpressionParsed(ts[1..]);
    var e := Expression(ts[1..]);
    ExpressionListTailParsed(OneExpr(e.value), e.rest);
    var v := ExpressionListTail(OneExpr(e.value), e.rest);
    assert v.rest == [RParen] + v.rest[1..];
  }

  lemma {:induction false} ExpressionListTailParsed(front: Exprs, ts: seq<Token>)
    requires ExpressionListTail(front, ts).Ok? && AreExpressions(front)
    ensures var r := ExpressionListTail(front, ts);
            && YieldEs(front) + ts == YieldEs(r.value) + r.rest
            && AreExpressions(r.value)
    decreases |ts|, 6
  {
    hide IsExpression, IsPredicate, Expression, YieldE;
    if Next(ts, Comma) {
      ExpressionParsed(ts[1..]);
      var e := Expression(ts[1..]);
      assert ts == [Comma] + ts[1..];
      assert YieldEs(MoreExprs(front, e.value)) == YieldEs(front) + [Comma] + YieldE(e.value);
      ListTokens(YieldEs(front), YieldE(e.value), e.rest);
      ExpressionListTailParsed(MoreExprs(front, e.value), e.rest);
    }
  }
}
