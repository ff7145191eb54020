/** Trees of the stated precedence parse back to themselves, and to nothing else. */
module ParseBack {
  import opened Syntax
  import opened Grammar
  import opened ParsedTrees

  // ------------------------------------------------------- what cannot continue a tree

  predicate StopsFactor(ts: seq<Token>) {
    ts == [] || (!ts[0].LParen? && !ts[0].Dot?)
  }

  predicate StopsTerm(ts: seq<Token>) {
    StopsFactor(ts) && (ts == [] || !IsMultiplicative(ts[0]))
  }

  predicate StopsExpression(ts: seq<Token>) {
    StopsTerm(ts) && (ts == [] || !IsAdditive(ts[0]))
  }

  predicate StopsPredicate(ts: seq<Token>) {
    StopsExpression(ts) && !StartsPredicate(ts)
  }

  predicate StopsAnd(ts: seq<Token>) {
    StopsPredicate(ts) && !Next(ts, And)
  }

  predicate StopsOr(ts: seq<Token>) {
    StopsAnd(ts) && !Next(ts, Or)
  }

  // ------------------------------------------------------------------ expressions

  lemma {:induction false} FactorBack(e: Expr, rest: seq<Token>)
    requires IsFactor(e) && StopsFactor(rest)
    ensures Factor(YieldE(e) + rest) == Ok(e, rest)
    decreases e, 0
  {
    match e
    case Literal(t) => NameBack(e, rest);
    case Column(_, _) => NameBack(e, rest);
    case Unary(op, x) =>
      FactorBack(x, rest);
      SignBack(op, x, rest);
    case Paren(x) =>
      ParenBack(x, rest);
      InParensBack(x, rest);
    case Call(n, a) => CallBack(n, a, rest);
  }

  lemma NameBack(e: Expr, rest: seq<Token>)
    requires (e.Column? || (e.Literal? && IsLiteral(e.token))) && StopsFactor(rest)
    ensures Factor(YieldE(e) + rest) == Ok(e, rest)
  {
    var ts := YieldE(e) + rest;
    match e
    case Literal(t) => assert ts[1..] == rest;
    case Column(None, n) => assert ts[1..] == rest && (rest != [] ==> ts[1] == rest[0]);
    case Column(Some(q), n) => assert ts == [Ident(q), Dot, Ident(n)] + rest && ts[3..] == rest;
  }

  lemma SignBack(op: Token, x: Expr, rest: seq<Token>)
    requires IsAdditive(op) && Factor(YieldE(x) + rest) == Ok(x, rest)
    ensures Factor(YieldE(Unary(op, x)) + rest) == Ok(Unary(op, x), rest)
  {
    hide YieldE;
    assert YieldE(Unary(op, x)) == [op] + YieldE(x) by { SignYield(op, x); }
    assert ([op] + YieldE(x) + rest)[1..] == YieldE(x) + rest;
  }

  lemma SignYield(op: Token, x: Expr)
    ensures YieldE(Unary(op, x)) == [op] + YieldE(x)
  {
  }

  lemma InParensBack(x: Expr, rest: seq<Token>)
    requires Expression(YieldE(x) + ([RParen] + rest)) == Ok(x, [RParen] + rest) && IsExpression(x)
    ensures Factor(YieldE(Paren(x)) + rest) == Ok(Paren(x), rest)
  {
    ParenShape(x);
    hide YieldE, Expression, IsExpression;
    var ts := YieldE(Paren(x)) + rest;
    assert ts[1..] == YieldE(x) + ([RParen] + rest) && ([RParen] + rest)[1..] == rest;
  }

  lemma {:induction false} ParenBack(x: Expr, rest: seq<Token>)
    requires IsExpression(x)
    ensures Expression(YieldE(x) + ([RParen] + rest)) == Ok(x, [RParen] + rest)
    decreases x, 4
  {
    ExpressionBack(x, [RParen] + rest);
  }

  lemma {:induction false} CallBack(n: string, a: Args, rest: seq<Token>)
    requires IsFactor(Call(n, a))
    ensures Factor(YieldE(Call(n, a)) + rest) == Ok(Call(n, a), rest)
    decreases a, 0
  {
    CallIsFactor(n, a, rest);
    if a.ArgList? {
      ArgumentsBack(a.items, [RParen] + rest);
      SelectsStart(a.items, [RParen] + rest);
      ArgListBack(n, a.distinct, a.items, rest);
    } else {
      BareCallBack(n, a, rest);
    }
  }

  /** Without arguments, or with a star. */
  lemma BareCallBack(n: string, a: Args, rest: seq<Token>)
    requires !a.ArgList?
    ensures FunctionCall([Ident(n), LParen] + (YieldA(a) + ([RParen] + rest))) == Ok(Call(n, a), rest)
  {
    var inside := YieldA(a) + ([RParen] + rest);
    assert ([Ident(n), LParen] + inside)[2..] == inside && ([RParen] + rest)[1..] == rest;
    assert a.StarArg? ==> inside[1..] == [RParen] + rest && inside[2..] == rest;
  }

  lemma CallIsFactor(n: string, a: Args, rest: seq<Token>)
    ensures var ts := [Ident(n), LParen] + (YieldA(a) + ([RParen] + rest));
            YieldE(Call(n, a)) + rest == ts && Factor(ts) == FunctionCall(ts)
  {
    hide FunctionCall, YieldA;
  }

  lemma ArgListBack(n: string, distinct: bool, items: Selects, rest: seq<Token>)
    requires Arguments(YieldSs(items) + ([RParen] + rest)) == Ok(items, [RParen] + rest)
    requires var ts := YieldSs(items) + ([RParen] + rest); !Next(ts, RParen) && !Next(ts, Star) && !Next(ts, Distinct)
    ensures var a := ArgList(distinct, items);
            FunctionCall([Ident(n), LParen] + (YieldA(a) + ([RParen] + rest))) == Ok(Call(n, a), rest)
  {
    hide Arguments, YieldSs;
    var from := YieldSs(items) + ([RParen] + rest);
    var inside := (if distinct then [Distinct] else []) + from;
    assert YieldA(ArgList(distinct, items)) + ([RParen] + rest) == inside;
    assert ([Ident(n), LParen] + inside)[2..] == inside && ([RParen] + rest)[1..] == rest;
    assert (if distinct then inside[1..] else inside) == from;
  }

  lemma ProductStep(left: Expr, op: Token, right: Expr, rest: seq<Token>)
    requires IsMultiplicative(op) && Factor(YieldE(right) + rest) == Ok(right, rest)
    ensures TermTail(left, [op] + (YieldE(right) + rest)) == TermTail(Binary(left, op, right), rest)
  {
    hide Factor, YieldE;
    assert ([op] + (YieldE(right) + rest))[1..] == YieldE(right) + rest;
  }

  lemma SumStep(left: Expr, op: Token, right: Expr, rest: seq<Token>)
    requires IsAdditive(op) && Term(YieldE(right) + rest) == Ok(right, rest)
    ensures ExpressionTail(left, [op] + (YieldE(right) + rest)) == ExpressionTail(Binary(left, op, right), rest)
  {
    hide Term, YieldE;
    assert ([op] + (YieldE(right) + rest))[1..] == YieldE(right) + rest;
  }

  lemma AndStep(left: Cond, right: Cond, rest: seq<Token>)
    requires NotCondition(YieldC(right) + rest) == Ok(right, rest)
    ensures AndTail(left, [And] + (YieldC(right) + rest)) == AndTail(BoolOp(left, And, right), rest)
  {
    hide NotCondition, YieldC;
    assert ([And] + (YieldC(right) + rest))[1..] == YieldC(right) + rest;
  }

  lemma OrStep(left: Cond, right: Cond, rest: seq<Token>)
    requires AndCondition(YieldC(right) + rest) == Ok(right, rest)
    ensures OrTail(left, [Or] + (YieldC(right) + rest)) == OrTail(BoolOp(left, Or, right), rest)
  {
    hide AndCondition, YieldC;
    assert ([Or] + (YieldC(right) + rest))[1..] == YieldC(right) + rest;
  }

  lemma {:induction false} TermBack(e: Expr, rest: seq<Token>)
    requires IsTerm(e) && StopsFactor(rest)
    ensures Term(YieldE(e) + rest) == TermTail(e, rest)
    decreases e, 1
  {
    hide Factor, IsExpression, IsFactor;
    if e.Binary? && IsMultiplicative(e.op) && IsTerm(e.left) && IsFactor(e.right) {
      var after := YieldE(e.right) + rest;
      TermBack(e.left, [e.op] + after);
      FactorBack(e.right, rest);
      ProductStep(e.left, e.op, e.right, rest);
      assert YieldE(e) + rest == YieldE(e.left) + ([e.op] + after);
    } else {
      FactorBack(e, rest);
    }
  }

  lemma {:induction false} ExpressionBack(e: Expr, rest: seq<Token>)
    requires IsExpression(e) && StopsTerm(rest)
    ensures Expression(YieldE(e) + rest) == ExpressionTail(e, rest)
    decreases e, 2
  {
    hide Factor, Term, IsTerm;
    if e.Binary? && IsAdditive(e.op) && IsExpression(e.left) && IsTerm(e.right) {
      var after := YieldE(e.right) + rest;
      ExpressionBack(e.left, [e.op] + after);
      TermBack(e.right, rest);
      SumStep(e.left, e.op, e.right, rest);
      assert YieldE(e) + rest == YieldE(e.left) + ([e.op] + after);
    } else {
      TermBack(e, rest);
    }
  }

  /** The first token of a list of arguments is none that FunctionCall treats apart. */
  lemma {:induction false} SelectsStart(l: Selects, rest: seq<Token>)
    requires AreSelects(l)
    ensures var ts := YieldSs(l) + rest;
            && !Next(ts, RParen)
            && !Next(ts, Star)
            && !Next(ts, Distinct)
  {
    hide IsSelect;
    match l
    case OneSelect(s) => SelectStart(s);
    case MoreSelects(front, s) =>
      SelectsStart(front, [Comma] + YieldS(s) + rest);
      assert YieldSs(l) + rest == YieldSs(front) + ([Comma] + YieldS(s) + rest);
  }

  lemma SelectStart(s: Select)
    requires IsSelect(s)
    ensures YieldS(s) != []
    ensures !Next(YieldS(s), RParen)
    ensures !Next(YieldS(s), Star)
    ensures !Next(YieldS(s), Distinct)
  {
    match s
    case OfExpr(e) => FirstToken(e);
    case OfCond(c) => ConditionStart(c);
  }

  // ------------------------------------------------------------------ predicates

  /** After an optional NOT. */
  lemma NegationStarts(n: bool, t: Token, x: seq<Token>)
    requires t.Like? || t.In? || t.Between?
    ensures var ts := Negation(n) + ([t] + x);
            && StartsPredicate(ts)
            && StopsExpression(ts)
            && !Next(ts, RParen)
  {
  }

  lemma TokenStarts(t: Token, x: seq<Token>)
    requires IsComparison(t) || t.Is?
    ensures var ts := [t] + x;
            && StartsPredicate(ts)
            && StopsExpression(ts)
            && !Next(ts, RParen)
  {
  }

  lemma Regroup(a: seq<Token>, t: Token, x: seq<Token>, rest: seq<Token>)
    ensures a + ([t] + x) + rest == a + ([t] + (x + rest))
    ensures [t] + x + rest == [t] + (x + rest)
  {
  }

  lemma TailStarts(c: Cond, rest: seq<Token>)
    requires IsPredicate(c) && !c.Truth?
    ensures var ts := TailTokens(c) + rest;
            && StartsPredicate(ts)
            && StopsExpression(ts)
            && !Next(ts, RParen)
  {
    hide YieldE, InList, IsExpression, AreExpressions, StartsPredicate, StopsExpression, Next, Negation;
    match c
    case Compare(_, op, r) =>
      Regroup([], op, YieldE(r), rest);
      TokenStarts(op, YieldE(r) + rest);
    case IsNull(_, n) =>
      Regroup([], Is, Negation(n) + [Null], rest);
      TokenStarts(Is, Negation(n) + [Null] + rest);
    case LikeP(_, n, p) =>
      Regroup(Negation(n), Like, YieldE(p), rest);
      NegationStarts(n, Like, YieldE(p) + rest);
    case InP(_, n, v) =>
      Regroup(Negation(n), In, InList(v), rest);
      NegationStarts(n, In, InList(v) + rest);
    case BetweenP(_, n, lo, hi) =>
      var x := YieldE(lo) + ([And] + YieldE(hi));
      Regroup(Negation(n), Between, x, rest);
      NegationStarts(n, Between, x + rest);
  }

  lemma {:induction false} PredicateBack(c: Cond, rest: seq<Token>)
    requires IsPredicate(c) && !c.Truth? && StopsExpression(rest)
    ensures StartsPredicate(TailTokens(c) + rest)
    ensures PredicateTail(Subject(c), TailTokens(c) + rest) == Ok(c, rest)
    decreases c, 0
  {
    TailStarts(c, rest);
    hide Expression, ExpressionList, IsExpression, AreExpressions, YieldE, InList, StopsExpression, StartsPredicate, PredicateTail, Negation;
    match c
    case Compare(e, op, r) =>
      OperandBack(r, rest);
      CompareBack(e, op, r, rest);
    case IsNull(e, n) => IsNullBack(e, n, rest);
    case LikeP(e, n, p) =>
      OperandBack(p, rest);
      LikeBack(e, n, p, rest);
    case InP(e, n, v) =>
      ExpressionListBack(v, rest);
      InBack(e, n, v, rest);
    case BetweenP(e, n, lo, hi) =>
      AndStops(YieldE(hi) + rest);
      OperandBack(hi, rest);
      OperandBack(lo, [And] + (YieldE(hi) + rest));
      BetweenBack(e, n, lo, hi, rest);
  }

  lemma AndStops(ts: seq<Token>)
    ensures StopsExpression([And] + ts)
  {
  }

  lemma CompareBack(e: Expr, op: Token, r: Expr, rest: seq<Token>)
    requires IsComparison(op) && Expression(YieldE(r) + rest) == Ok(r, rest)
    ensures var ts := [op] + YieldE(r) + rest;
            && StartsPredicate(ts)
            && PredicateTail(e, ts) == Ok(Compare(e, op, r), rest)
  {
    hide Expression, YieldE;
    assert ([op] + YieldE(r) + rest)[1..] == YieldE(r) + rest;
  }

  lemma IsNullBack(e: Expr, n: bool, rest: seq<Token>)
    ensures var ts := [Is] + (Negation(n) + [Null]) + rest;
            && StartsPredicate(ts)
            && PredicateTail(e, ts) == Ok(IsNull(e, n), rest)
  {
    var ts := [Is] + (Negation(n) + [Null]) + rest;
    assert ts[1..] == Negation(n) + ([Null] + rest);
    assert n ==> ts[2..] == [Null] + rest;
    assert ([Null] + rest)[1..] == rest;
  }

  lemma LikeBack(e: Expr, n: bool, p: Expr, rest: seq<Token>)
    requires Expression(YieldE(p) + rest) == Ok(p, rest)
    ensures var ts := Negation(n) + ([Like] + YieldE(p)) + rest;
            && StartsPredicate(ts)
            && PredicateTail(e, ts) == Ok(LikeP(e, n, p), rest)
  {
    hide Expression, YieldE, PredicateTail, StartsPredicate;
    Regroup(Negation(n), Like, YieldE(p), rest);
    NegationBack(e, n, Like, YieldE(p) + rest);
  }

  lemma InBack(e: Expr, n: bool, v: Exprs, rest: seq<Token>)
    requires ExpressionList(InList(v) + rest) == Ok(v, rest)
    ensures var ts := Negation(n) + ([In] + InList(v)) + rest;
            && StartsPredicate(ts)
            && PredicateTail(e, ts) == Ok(InP(e, n, v), rest)
  {
    hide ExpressionList, InList, PredicateTail, StartsPredicate;
    Regroup(Negation(n), In, InList(v), rest);
    NegationBack(e, n, In, InList(v) + rest);
  }

  lemma BetweenBack(e: Expr, n: bool, lo: Expr, hi: Expr, rest: seq<Token>)
    requires Expression(YieldE(lo) + ([And] + (YieldE(hi) + rest))) == Ok(lo, [And] + (YieldE(hi) + rest))
    requires Expression(YieldE(hi) + rest) == Ok(hi, rest)
    ensures var ts := Negation(n) + ([Between] + (YieldE(lo) + ([And] + YieldE(hi)))) + rest;
            StartsPredicate(ts) && PredicateTail(e, ts) == Ok(BetweenP(e, n, lo, hi), rest)
  {
    hide Expression, YieldE, PredicateTail, StartsPredicate;
    var x := YieldE(lo) + ([And] + YieldE(hi));
    Regroup(Negation(n), Between, x, rest);
    Regroup(YieldE(lo), And, YieldE(hi), rest);
    assert ([And] + (YieldE(hi) + rest))[1..] == YieldE(hi) + rest;
    NegationBack(e, n, Between, x + rest);
  }

  lemma NegationBack(e: Expr, negated: bool, t: Token, x: seq<Token>)
    requires t.Like? || t.In? || t.Between?
    ensures var at := [t] + x; var ts := Negation(negated) + at;
            at[1..] == x && StartsPredicate(ts) && PredicateTail(e, ts) == Membership(e, negated, at)
  {
    hide Membership;
    var at := [t] + x;
    if negated {
      assert (Negation(negated) + at)[1..] == at;
    } else {
      assert Negation(negated) + at == at;
    }
  }

  lemma {:induction false} OperandBack(e: Expr, rest: seq<Token>)
    requires IsExpression(e) && StopsExpression(rest)
    ensures Expression(YieldE(e) + rest) == Ok(e, rest)
    decreases e, 3
  {
    hide Expression, IsExpression, YieldE;
    ExpressionBack(e, rest);
  }

  lemma {:induction false} ExpressionListBack(v: Exprs, rest: seq<Token>)
    requires AreExpressions(v)
    ensures ExpressionList(InList(v) + rest) == Ok(v, rest)
    decreases v, 1
  {
    hide Expression, IsExpression, YieldE, AreExpressions, YieldEs;
    var ts := InList(v) + rest;
    ListItemsBack(v, [RParen] + rest);
    assert ts[1..] == YieldEs(v) + ([RParen] + rest);
    assert ([RParen] + rest)[1..] == rest;
  }

  function FirstThenList(ts: seq<Token>): Result<Exprs> {
    match Expression(ts)
    case Error => Error
    case Ok(e, rest) => ExpressionListTail(OneExpr(e), rest)
  }

  lemma {:induction false} ListItemsBack(v: Exprs, rest: seq<Token>)
    requires AreExpressions(v) && StopsExpression(rest)
    ensures FirstThenList(YieldEs(v) + rest) == ExpressionListTail(v, rest)
    decreases v, 0
  {
    hide Expression, IsExpression, YieldE;
    match v
    case OneExpr(e) => OperandBack(e, rest);
    case MoreExprs(front, e) =>
      var after := [Comma] + (YieldE(e) + rest);
      ListItemsBack(front, after);
      OperandBack(e, rest);
      assert YieldEs(v) + rest == YieldEs(front) + after && after[1..] == YieldE(e) + rest;
  }

  // ------------------------------------------------------------------ conditions

  /** The predicate a chain begins with, and the tokens after it. */
  function Leftmost(c: Cond): Cond {
    if c.BoolOp? then Leftmost(c.first) else c
  }

  function AfterLeftmost(c: Cond): seq<Token> {
    if c.BoolOp? then AfterLeftmost(c.first) + [c.op] + YieldC(c.second) else []
  }

  lemma {:induction false} OpenYield(c: Cond)
    requires IsOpenOr(c) || IsOpenAnd(c)
    ensures IsPredicate(Leftmost(c))
    ensures YieldC(c) == YieldC(Leftmost(c)) + AfterLeftmost(c)
    ensures AfterLeftmost(c) == [] <==> c == Leftmost(c)
    ensures AfterLeftmost(c) != [] ==> AfterLeftmost(c)[0].And? || AfterLeftmost(c)[0].Or?
    decreases c
  {
    NarrowCondition(c);
    NoChain(c);
    if c.BoolOp? {
      WidenCondition(c.first);
      OpenYield(c.first);
    }
  }

  lemma {:induction false} PrimaryBack(c: Cond, rest: seq<Token>)
    requires IsPrimary(c) && StopsPredicate(rest)
    ensures ConditionPrimary(YieldC(c) + rest) == Ok(c, rest)
    decreases c, 3
  {
    hide Expression, PredicateOrTruth, Continuation, OrTailFromLeft, IsPredicate, IsOpenOr, IsOr, IsExpression;
    if c.ParenC? {
      var after := [RParen] + rest;
      OpenBack(c.inside, after);
      assert YieldC(c) + rest == [LParen] + (YieldC(c.inside) + after);
      assert ([LParen] + (YieldC(c.inside) + after))[1..] == YieldC(c.inside) + after;
      assert after[1..] == rest;
    } else {
      PlainBack(c, rest);
    }
  }

  lemma {:induction false} PlainBack(c: Cond, rest: seq<Token>)
    requires IsPredicate(c) && IsPlain(Subject(c)) && StopsPredicate(rest)
    ensures ConditionPrimary(YieldC(c) + rest) == Ok(c, rest)
    decreases c, 2
  {
    var e, after := Subject(c), TailTokens(c) + rest;
    PredicateTokens(c, rest);
    TruthOrTailBack(c, rest);
    hide PredicateOrTruth, TailTokens, IsPredicate, ConditionPrimary, StopsExpression, YieldC, YieldE, IsExpression, Expression;
    if e.Paren? {
      ParenContents(e.inner);
      ParenBack(e.inner, after);
      ParenPrimary(e.inner, after);
    } else {
      OperandBack(e, after);
      PlainPrimary(e, after);
    }
  }

  lemma ParenPrimary(x: Expr, after: seq<Token>)
    requires IsExpression(x) && Expression(YieldE(x) + ([RParen] + after)) == Ok(x, [RParen] + after)
    ensures ConditionPrimary(YieldE(Paren(x)) + after) == PredicateOrTruth(Paren(x), after)
  {
    ParenShape(x);
    hide Expression, PredicateOrTruth, YieldE, IsExpression, Continuation, IsPlain;
    var end, ts := [RParen] + after, YieldE(Paren(x)) + after;
    InParens(YieldE(x), end);
    assert end[1..] == after && ts == [LParen] + (YieldE(x) + end);
    assert ts[1..] == YieldE(x) + end;
  }

  lemma PlainPrimary(e: Expr, after: seq<Token>)
    requires IsExpression(e) && IsPlain(e) && !e.Paren? && Expression(YieldE(e) + after) == Ok(e, after)
    ensures ConditionPrimary(YieldE(e) + after) == PredicateOrTruth(e, after)
  {
    FirstToken(e);
    hide Expression, PredicateOrTruth, YieldE, IsExpression;
  }

  /** A complete predicate, or a bare expression where no predicate follows. */
  lemma {:induction false} TruthOrTailBack(c: Cond, rest: seq<Token>)
    requires IsPredicate(c) && StopsPredicate(rest)
    ensures StopsExpression(TailTokens(c) + rest)
    ensures PredicateOrTruth(Subject(c), TailTokens(c) + rest) == Ok(c, rest)
    decreases c, 1
  {
    if c.Truth? {
      assert TailTokens(c) + rest == rest;
    } else {
      TailStarts(c, rest);
      PredicateBack(c, rest);
    }
  }

  lemma {:induction false} NotBack(c: Cond, rest: seq<Token>)
    requires IsNot(c) && StopsPredicate(rest)
    ensures NotCondition(YieldC(c) + rest) == Ok(c, rest)
    decreases c, 4
  {
    hide ConditionPrimary, IsPrimary;
    if c.NotC? {
      NotBack(c.operand, rest);
      assert YieldC(c) + rest == [Not] + (YieldC(c.operand) + rest);
      assert ([Not] + (YieldC(c.operand) + rest))[1..] == YieldC(c.operand) + rest;
    } else {
      PrimaryBack(c, rest);
      PrimaryStart(c);
    }
  }

  lemma PrimaryStart(c: Cond)
    requires IsPrimary(c)
    ensures YieldC(c) != [] && !YieldC(c)[0].Not?
  {
    if !c.ParenC? {
      PredicateYield(c);
      FirstToken(Subject(c));
    }
  }

  lemma {:induction false} AndBack(c: Cond, rest: seq<Token>)
    requires IsAnd(c) && StopsPredicate(rest)
    ensures AndCondition(YieldC(c) + rest) == AndTail(c, rest)
    decreases c, 5
  {
    hide NotCondition, IsNot, AndTail;
    if c.BoolOp? && c.op.And? {
      var after := [And] + (YieldC(c.second) + rest);
      AndBack(c.first, after);
      NotBack(c.second, rest);
      AndStep(c.first, c.second, rest);
      assert YieldC(c) + rest == YieldC(c.first) + after;
    } else {
      NotBack(c, rest);
    }
  }

  lemma {:induction false} OrBack(c: Cond, rest: seq<Token>)
    requires IsOr(c) && StopsAnd(rest)
    ensures OrCondition(YieldC(c) + rest) == OrTail(c, rest)
    decreases c, 6
  {
    hide NotCondition, AndCondition, OrTail, IsAnd;
    if c.BoolOp? && c.op.Or? {
      var after := [Or] + (YieldC(c.second) + rest);
      OrBack(c.first, after);
      AndBack(c.second, rest);
      AndStopsHere(c.second, rest);
      OrStep(c.first, c.second, rest);
      assert YieldC(c) + rest == YieldC(c.first) + after;
    } else {
      AndBack(c, rest);
      AndStopsHere(c, rest);
    }
  }

  /** A chain whose first predicate is already read. */
  lemma {:induction false} OpenAndBack(c: Cond, rest: seq<Token>)
    requires IsOpenAnd(c) && StopsPredicate(rest)
    ensures AndTail(Leftmost(c), AfterLeftmost(c) + rest) == AndTail(c, rest)
    decreases c, 7
  {
    hide NotCondition, IsNot, IsPredicate, AndTail, IsPrimary, IsFactor, IsExpression, YieldC;
    if c.BoolOp? && c.op.And? {
      var after := [And] + (YieldC(c.second) + rest);
      OpenAndBack(c.first, after);
      NotBack(c.second, rest);
      AndStep(c.first, c.second, rest);
      assert AfterLeftmost(c) + rest == AfterLeftmost(c.first) + after;
    } else {
      PredicateIsLeftmost(c);
      assert AfterLeftmost(c) + rest == rest;
    }
  }

  lemma AndStopsHere(c: Cond, rest: seq<Token>)
    requires !Next(rest, And)
    ensures AndTail(c, rest) == Ok(c, rest)
  {
  }

  lemma PredicateIsLeftmost(c: Cond)
    requires IsPredicate(c)
    ensures Leftmost(c) == c && AfterLeftmost(c) == []
  {
  }

  lemma {:induction false} OpenOrBack(c: Cond, rest: seq<Token>)
    requires IsOpenOr(c) && StopsAnd(rest)
    ensures OrTailFromLeft(Leftmost(c), AfterLeftmost(c) + rest) == OrTail(c, rest)
    decreases c, 8
  {
    hide AndCondition, IsAnd, IsOpenAnd, OrTail, AndTail;
    if c.BoolOp? && c.op.Or? {
      var after := [Or] + (YieldC(c.second) + rest);
      OpenOrBack(c.first, after);
      AndBack(c.second, rest);
      AndStopsHere(c.second, rest);
      OrStep(c.first, c.second, rest);
      assert AfterLeftmost(c) + rest == AfterLeftmost(c.first) + after;
    } else {
      OpenAndBack(c, rest);
      AndStopsHere(c, rest);
    }
  }

  /** A condition that begins with a predicate, read as an expression and its continuation. */
  lemma {:induction false} OpenBack(c: Cond, rest: seq<Token>)
    requires IsOpenOr(c) && !c.Truth? && StopsOr(rest)
    ensures var r := Expression(YieldC(c) + rest);
            r.Ok? && !Next(r.rest, RParen) && (StartsPredicate(r.rest) || Next(r.rest, And) || Next(r.rest, Or))
            && Continuation(r.value, r.rest) == Ok(c, rest)
    decreases c, 10
  {
    OpenYield(c);
    var p, after := Leftmost(c), AfterLeftmost(c) + rest;
    assert after != [] ==> after[0] == if AfterLeftmost(c) != [] then AfterLeftmost(c)[0] else rest[0];
    assert YieldC(c) + rest == YieldC(p) + after;
    OpenOrBack(c, rest);
    OrStopsHere(c, rest);
    LeftmostSmaller(c);
    PredicateTokens(p, after);
    hide Expression, IsOpenOr, IsPredicate, TailTokens, AfterLeftmost, Leftmost, Continuation, OrTailFromLeft, YieldC, YieldE, OrTail;
    if p.Truth? {
      OpenTruthBack(YieldC(c) + rest, p, after);
    } else {
      OpenPredicateBack(YieldC(c) + rest, p, after);
    }
  }

  lemma OrStopsHere(c: Cond, rest: seq<Token>)
    requires !Next(rest, Or)
    ensures OrTail(c, rest) == Ok(c, rest)
  {
  }

  lemma {:induction false} OpenTruthBack(ts: seq<Token>, p: Cond, after: seq<Token>)
    requires IsPredicate(p) && p.Truth? && (Next(after, And) || Next(after, Or)) && ts == YieldE(Subject(p)) + (TailTokens(p) + after)
    ensures Expression(ts) == Ok(Subject(p), after)
    ensures Continuation(Subject(p), after) == OrTailFromLeft(p, after)
    decreases p, 9
  {
    hide Expression, OrTailFromLeft, YieldE;
    assert TailTokens(p) + after == after;
    OperandBack(p.expr, after);
  }

  lemma {:induction false} OpenPredicateBack(ts: seq<Token>, p: Cond, after: seq<Token>)
    requires IsPredicate(p) && !p.Truth? && StopsExpression(after) && ts == YieldE(Subject(p)) + (TailTokens(p) + after)
    requires IsExpression(Subject(p))
    ensures var r := Expression(ts);
            r.Ok? && !Next(r.rest, RParen) && StartsPredicate(r.rest) && Continuation(r.value, r.rest) == OrTailFromLeft(p, after)
    decreases p, 9
  {
    hide Expression, IsPredicate, IsExpression, TailTokens, PredicateTail, OrTailFromLeft, StopsExpression, YieldE, StartsPredicate, Continuation, Next;
    var tail := TailTokens(p) + after;
    TailStarts(p, after);
    PredicateBack(p, after);
    ContinuationOf(Subject(p), tail, p, after);
    PredicateTokens(p, after);
    OperandBack(Subject(p), tail);
  }

  lemma ContinuationOf(e: Expr, ts: seq<Token>, p: Cond, after: seq<Token>)
    requires StartsPredicate(ts) && PredicateTail(e, ts) == Ok(p, after)
    ensures Continuation(e, ts) == OrTailFromLeft(p, after)
  {
    hide PredicateTail, OrTailFromLeft, StartsPredicate;
  }

  lemma {:induction false} LeftmostSmaller(c: Cond)
    ensures Leftmost(c) == c || Leftmost(c) < c
    decreases c
  {
    if c.BoolOp? {
      LeftmostSmaller(c.first);
    }
  }

  lemma {:induction false} SelectBack(s: Select, rest: seq<Token>)
    requires IsSelect(s) && StopsOr(rest)
    ensures SelectExpression(YieldS(s) + rest) == Ok(s, rest)
    decreases s, 11
  {
    match s
    case OfExpr(e) =>
      OperandBack(e, rest);
      FirstToken(e);
    case OfCond(c) =>
      ConditionStart(c);
      if StartsWithNot(c) && IsOr(c) {
        OrBack(c, rest);
      } else {
        OpenBack(c, rest);
      }
  }

  lemma {:induction false} ArgumentsBack(l: Selects, rest: seq<Token>)
    requires AreSelects(l) && StopsOr(rest)
    ensures Arguments(YieldSs(l) + rest) == ArgumentsTail(l, rest)
    decreases l, 12
  {
    hide SelectExpression, IsSelect, YieldS;
    match l
    case OneSelect(s) => SelectBack(s, rest);
    case MoreSelects(front, s) =>
      var after := [Comma] + (YieldS(s) + rest);
      ArgumentsBack(front, after);
      SelectBack(s, rest);
      assert YieldSs(l) + rest == YieldSs(front) + after && after[1..] == YieldS(s) + rest;
  }

  // ------------------------------------------------------------------ main results

  /** A tree of the right shape parses back to itself. */
  lemma ExpressionRoundTrip(e: Expr, rest: seq<Token>)
    requires IsExpression(e) && StopsExpression(rest)
    ensures Expression(YieldE(e) + rest) == Ok(e, rest)
  {
    OperandBack(e, rest);
  }

  lemma ConditionRoundTrip(c: Cond, rest: seq<Token>)
    requires IsOr(c) && StopsOr(rest)
    ensures OrCondition(YieldC(c) + rest) == Ok(c, rest)
  {
    OrBack(c, rest);
  }

  /** The input is accepted whole exactly when it spells a tree of the shape, and there is only one. */
  lemma ExpressionAcceptedIff(ts: seq<Token>, e: Expr)
    ensures Expression(ts) == Ok(e, []) <==> IsExpression(e) && ts == YieldE(e)
  {
    if Expression(ts) == Ok(e, []) {
      ExpressionParsed(ts);
      assert YieldE(e) + [] == YieldE(e);
    }
    if IsExpression(e) && ts == YieldE(e) {
      OperandBack(e, []);
      assert YieldE(e) + [] == YieldE(e);
    }
  }

  lemma ConditionAcceptedIff(ts: seq<Token>, c: Cond)
    ensures OrCondition(ts) == Ok(c, []) <==> IsOr(c) && ts == YieldC(c)
  {
    if OrCondition(ts) == Ok(c, []) {
      OrParsed(ts);
      assert YieldC(c) + [] == YieldC(c);
    }
    if IsOr(c) && ts == YieldC(c) {
      OrBack(c, []);
      assert YieldC(c) + [] == YieldC(c);
    }
  }

  /** No two trees of the shape have the same tokens. */
  lemma TokensDetermineTree(a: Expr, b: Expr)
    requires IsExpression(a) && IsExpression(b) && YieldE(a) == YieldE(b)
    ensures a == b
  {
    ExpressionAcceptedIff(YieldE(a), a);
    ExpressionAcceptedIff(YieldE(a), b);
  }

  /** Splitting after the first factor changes nothing: the two paths build one tree. */
  lemma SplitPathIsSame(ts: seq<Token>)
    requires Factor(ts).Ok?
    ensures Expression(ts) == ExpressionFromFactor(Factor(ts).value, Factor(ts).rest)
  {
  }

  /** ... in particular for a select column that begins with a qualified name. */
  lemma SelectColumnPathIsSame(q: string, n: string, rest: seq<Token>)
    ensures var ts := [Ident(q), Dot, Ident(n)] + rest;
            SelectExpression(ts) == match ExpressionFromFactor(Column(Some(q), n), rest)
                                    case Error => Error
                                    case Ok(e, after) => SelectFromExpression(e, after)
  {
    var ts := [Ident(q), Dot, Ident(n)] + rest;
    assert ts[3..] == rest;
    assert Factor(ts) == Ok(Column(Some(q), n), rest);
    SplitPathIsSame(ts);
    hide Expression, ExpressionFromFactor, SelectFromExpression;
  }

  /** In a condition, an operator after a parenthesised expression is not read: (a) * b > c stops after
      (a), though a select item of the same tokens is read whole. */
  lemma ParenthesesEndAnOperand(a: string, b: string, c: string)
    ensures var ts := [LParen, Ident(a), RParen, Star, Ident(b), Gt, Ident(c)];
            && OrCondition(ts) == Ok(Truth(Paren(Column(None, a))), [Star, Ident(b), Gt, Ident(c)])
            && SelectExpression(ts) == Ok(OfCond(Compare(Binary(Paren(Column(None, a)), Star, Column(None, b)), Gt, Column(None, c))), [])
  {
    var ts := [LParen, Ident(a), RParen, Star, Ident(b), Gt, Ident(c)];
    var x, rest := Column(None, a), [Star, Ident(b), Gt, Ident(c)];
    hide SelectExpression, OrCondition, ConditionPrimary, PredicateOrTruth, Expression, Factor;
    ParenBack(x, rest);
    ParenPrimary(x, rest);
    assert YieldE(Paren(x)) + rest == ts;
    BareEnds(ts, x, rest);
    ReadAsSelectItem(a, b, c);
  }

  lemma ReadAsSelectItem(a: string, b: string, c: string)
    ensures SelectExpression([LParen, Ident(a), RParen, Star, Ident(b), Gt, Ident(c)])
            == Ok(OfCond(Compare(Binary(Paren(Column(None, a)), Star, Column(None, b)), Gt, Column(None, c))), [])
  {
    var ts := [LParen, Ident(a), RParen, Star, Ident(b), Gt, Ident(c)];
    var x, y, z := Column(None, a), Column(None, b), Column(None, c);
    var product := Binary(Paren(x), Star, y);
    Widen(x);
    ParenContents(x);
    ProductShape(Paren(x), Star, y);
    Widen(product);
    Widen(z);
    OperandBack(product, [Gt, Ident(c)]);
    assert YieldE(product) + [Gt, Ident(c)] == ts;
    OperandBack(z, []);
    CompareBack(product, Gt, z, []);
    assert [Gt] + YieldE(z) + [] == [Gt, Ident(c)];
    hide Expression, PredicateTail, SelectFromExpression;
    ComparisonAlone(product, [Gt, Ident(c)], Compare(product, Gt, z));
  }

  lemma BareEnds(ts: seq<Token>, x: Expr, rest: seq<Token>)
    requires ConditionPrimary(ts) == PredicateOrTruth(Paren(x), rest) && !Next(ts, Not) && rest != [] && rest[0].Star?
    ensures OrCondition(ts) == Ok(Truth(Paren(x)), rest)
  {
    hide ConditionPrimary;
    var c := Truth(Paren(x));
    assert ConditionPrimary(ts) == Ok(c, rest);
    assert NotCondition(ts) == Ok(c, rest);
    assert AndTail(c, rest) == Ok(c, rest) && OrTail(c, rest) == Ok(c, rest);
    assert AndCondition(ts) == Ok(c, rest);
  }

  lemma ComparisonAlone(e: Expr, ts: seq<Token>, c: Cond)
    requires StartsPredicate(ts) && PredicateTail(e, ts) == Ok(c, [])
    ensures SelectFromExpression(e, ts) == Ok(OfCond(c), [])
  {
    hide PredicateTail;
    assert AndTail(c, []) == Ok(c, []) && OrTail(c, []) == Ok(c, []);
    assert OrTailFromLeft(c, []) == Ok(c, []);
    assert Continuation(e, ts) == Ok(c, []);
  }
}
