/** Tokens and trees of SQL expressions and conditions; spans are left out. */
module Syntax {

  /** Tokens with the text a tree keeps of them. */
  datatype Token =
    | Ident(name: string) | IntegerT(text: string) | FloatT(text: string) | StringT(text: string) | BooleanT(text: string) | Null
    | Plus | Minus | Star | Slash | Percent | LParen | RParen | Comma | Dot | Distinct
    | Not | And | Or | Eq | Neq | Lt | Gt | Lte | Gte | Like | Is | In | Between
    | OtherT(text: string)

  datatype Option<+T> = None | Some(value: T)

  datatype Expr =
    | Literal(token: Token)
    | Column(qualifier: Option<string>, name: string)
    | Unary(op: Token, operand: Expr)
    | Binary(left: Expr, op: Token, right: Expr)
    | Paren(inner: Expr)
    | Call(name: string, args: Args)

  datatype Args = NoArgs | StarArg | ArgList(distinct: bool, items: Selects)

  /** A list grows at its end, like the operands of a chain. */
  datatype Selects = OneSelect(only: Select) | MoreSelects(front: Selects, last: Select)
  datatype Exprs = OneExpr(only: Expr) | MoreExprs(front: Exprs, last: Expr)

  datatype Select = OfExpr(expr: Expr) | OfCond(cond: Cond)

  datatype Cond =
    | Compare(left: Expr, op: Token, right: Expr)
    | LikeP(left: Expr, negated: bool, pattern: Expr)
    | IsNull(expr: Expr, negated: bool)
    | InP(expr: Expr, negated: bool, values: Exprs)
    | BetweenP(expr: Expr, negated: bool, low: Expr, high: Expr)
    | Truth(expr: Expr)
    | NotC(operand: Cond)
    | BoolOp(first: Cond, op: Token, second: Cond)
    | ParenC(inside: Cond)

  predicate IsLiteral(t: Token) {
    t.IntegerT? || t.FloatT? || t.StringT? || t.BooleanT? || t.Null?
  }

  predicate IsAdditive(t: Token) {
    t.Plus? || t.Minus?
  }

  predicate IsMultiplicative(t: Token) {
    t.Star? || t.Slash? || t.Percent?
  }

  predicate IsComparison(t: Token) {
    t.Eq? || t.Neq? || t.Lt? || t.Gt? || t.Lte? || t.Gte?
  }

  // ------------------------------------------------------- the tokens of a tree, in order

  function YieldE(e: Expr): seq<Token> {
    match e
    case Literal(t) => [t]
    case Column(None, n) => [Ident(n)]
    case Column(Some(q), n) => [Ident(q), Dot, Ident(n)]
    case Unary(op, x) => [op] + YieldE(x)
    case Binary(l, op, r) => YieldE(l) + [op] + YieldE(r)
    case Paren(x) => [LParen] + YieldE(x) + [RParen]
    case Call(n, a) => [Ident(n), LParen] + YieldA(a) + [RParen]
  }

  function YieldA(a: Args): seq<Token> {
    match a
    case NoArgs => []
    case StarArg => [Star]
    case ArgList(d, items) => (if d then [Distinct] else []) + YieldSs(items)
  }

  function YieldSs(l: Selects): seq<Token> {
    match l
    case OneSelect(s) => YieldS(s)
    case MoreSelects(front, s) => YieldSs(front) + [Comma] + YieldS(s)
  }

  function YieldEs(l: Exprs): seq<Token>
    decreases l, 0
  {
    match l
    case OneExpr(e) => YieldE(e)
    case MoreExprs(front, e) => YieldEs(front) + [Comma] + YieldE(e)
  }

  function YieldS(s: Select): seq<Token> {
    match s
    case OfExpr(e) => YieldE(e)
    case OfCond(c) => YieldC(c)
  }

  function InList(v: Exprs): seq<Token>
    decreases v, 1
  {
    [LParen] + YieldEs(v) + [RParen]
  }

  function Negation(negated: bool): seq<Token> {
    if negated then [Not] else []
  }

  function YieldC(c: Cond): seq<Token> {
    match c
    case Compare(l, op, r) => YieldE(l) + ([op] + YieldE(r))
    case LikeP(l, n, p) => YieldE(l) + (Negation(n) + ([Like] + YieldE(p)))
    case IsNull(e, n) => YieldE(e) + ([Is] + (Negation(n) + [Null]))
    case InP(e, n, v) => YieldE(e) + (Negation(n) + ([In] + InList(v)))
    case BetweenP(e, n, lo, hi) => YieldE(e) + (Negation(n) + ([Between] + (YieldE(lo) + ([And] + YieldE(hi)))))
    case Truth(e) => YieldE(e)
    case NotC(x) => [Not] + YieldC(x)
    case BoolOp(l, op, r) => YieldC(l) + [op] + YieldC(r)
    case ParenC(x) => [LParen] + YieldC(x) + [RParen]
  }

  // ------------------------------------------------------------- precedence as shape

  /** Chains lean to the left; a right operand binds tighter than its operator. */
  predicate IsExpression(e: Expr)
    decreases e, 2
  {
    (e.Binary? && IsAdditive(e.op) && IsExpression(e.left) && IsTerm(e.right)) || IsTerm(e)
  }

  predicate IsTerm(e: Expr)
    decreases e, 1
  {
    (e.Binary? && IsMultiplicative(e.op) && IsTerm(e.left) && IsFactor(e.right)) || IsFactor(e)
  }

  predicate IsFactor(e: Expr)
    decreases e, 0
  {
    match e
    case Literal(t) => IsLiteral(t)
    case Column(_, _) => true
    case Unary(op, x) => IsAdditive(op) && IsFactor(x)
    case Binary(_, _, _) => false
    case Paren(x) => IsExpression(x)
    case Call(_, a) => match a { case NoArgs => true case StarArg => true case ArgList(_, items) => AreSelects(items) }
  }

  predicate AreSelects(l: Selects)
    decreases l, 0
  {
    match l
    case OneSelect(s) => IsSelect(s)
    case MoreSelects(front, s) => AreSelects(front) && IsSelect(s)
  }

  predicate AreExpressions(l: Exprs)
    decreases l, 0
  {
    match l
    case OneExpr(e) => IsExpression(e)
    case MoreExprs(front, e) => AreExpressions(front) && IsExpression(e)
  }

  /** The factor an expression begins with. */
  function FirstFactor(e: Expr): Expr {
    if e.Binary? then FirstFactor(e.left) else e
  }

  /** After an opening parenthesis a condition goes no further than the closing one: (a) * b > c is
      not accepted as a condition, a * (b) > c is. */
  predicate IsPlain(e: Expr) {
    FirstFactor(e).Paren? ==> e.Paren?
  }

  /** One predicate, or an expression used for its truth value. */
  predicate IsPredicate(c: Cond)
    decreases c, 0
  {
    match c
    case Compare(l, op, r) => IsExpression(l) && IsComparison(op) && IsExpression(r)
    case LikeP(l, _, p) => IsExpression(l) && IsExpression(p)
    case IsNull(e, _) => IsExpression(e)
    case InP(e, _, v) => IsExpression(e) && AreExpressions(v)
    case BetweenP(e, _, lo, hi) => IsExpression(e) && IsExpression(lo) && IsExpression(hi)
    case Truth(e) => IsExpression(e)
    case _ => false
  }

  /** The expression a predicate is about. */
  function Subject(c: Cond): Expr {
    match c
    case Compare(l, _, _) => l
    case LikeP(l, _, _) => l
    case IsNull(e, _) => e
    case InP(e, _, _) => e
    case BetweenP(e, _, _, _) => e
    case Truth(e) => e
    case _ => Literal(Null)
  }

  /** Inside parentheses, and as a select item, the first operand is read as an expression: it is a
      predicate, not NOT and not a parenthesised condition. */
  predicate IsPrimary(c: Cond)
    decreases c, 1
  {
    if c.ParenC? then IsOpenOr(c.inside) && !c.inside.Truth? else IsPredicate(c) && IsPlain(Subject(c))
  }

  predicate IsNot(c: Cond)
    decreases c, 2
  {
    if c.NotC? then IsNot(c.operand) else IsPrimary(c)
  }

  predicate IsAnd(c: Cond)
    decreases c, 3
  {
    if c.BoolOp? && c.op.And? then IsAnd(c.first) && IsNot(c.second) else IsNot(c)
  }

  predicate IsOr(c: Cond)
    decreases c, 4
  {
    if c.BoolOp? && c.op.Or? then IsOr(c.first) && IsAnd(c.second) else IsAnd(c)
  }

  predicate IsOpenAnd(c: Cond)
    decreases c, 3
  {
    if c.BoolOp? && c.op.And? then IsOpenAnd(c.first) && IsNot(c.second) else IsPredicate(c)
  }

  predicate IsOpenOr(c: Cond)
    decreases c, 4
  {
    if c.BoolOp? && c.op.Or? then IsOpenOr(c.first) && IsAnd(c.second) else IsOpenAnd(c)
  }

  predicate StartsWithNot(c: Cond) {
    if c.BoolOp? then StartsWithNot(c.first) else c.NotC?
  }

  predicate IsSelect(s: Select)
    decreases s, 5
  {
    match s
    case OfExpr(e) => IsExpression(e)
    case OfCond(c) => (StartsWithNot(c) && IsOr(c)) || (IsOpenOr(c) && !c.Truth?)
  }

  // ----------------------------------------------------------------- building shapes

  lemma Widen(e: Expr)
    ensures IsFactor(e) ==> IsTerm(e)
    ensures IsTerm(e) ==> IsExpression(e)
  {
  }

  lemma WidenCondition(c: Cond)
    ensures IsPrimary(c) && !c.NotC? ==> IsNot(c)
    ensures IsNot(c) ==> IsAnd(c)
    ensures IsAnd(c) ==> IsOr(c)
    ensures IsPredicate(c) ==> IsOpenAnd(c)
    ensures IsOpenAnd(c) ==> IsOpenOr(c)
  {
    NoChain(c);
  }

  lemma NoChain(c: Cond)
    ensures IsNot(c) || IsPrimary(c) || IsPredicate(c) ==> !c.BoolOp?
  {
    if c.BoolOp? {
      assert !IsPredicate(c);
      assert !IsPrimary(c);
    }
  }

  lemma SumShape(l: Expr, op: Token, r: Expr)
    requires IsExpression(l) && IsAdditive(op) && IsTerm(r)
    ensures IsExpression(Binary(l, op, r))
    ensures YieldE(Binary(l, op, r)) == YieldE(l) + [op] + YieldE(r)
  {
  }

  lemma ProductShape(l: Expr, op: Token, r: Expr)
    requires IsTerm(l) && IsMultiplicative(op) && IsFactor(r)
    ensures IsTerm(Binary(l, op, r))
    ensures YieldE(Binary(l, op, r)) == YieldE(l) + [op] + YieldE(r)
  {
  }

  lemma OrShape(l: Cond, r: Cond)
    requires IsAnd(r)
    ensures var c := BoolOp(l, Or, r);
            && YieldC(c) == YieldC(l) + [Or] + YieldC(r) && (IsOr(l) ==> IsOr(c)) && (IsOpenOr(l) ==> IsOpenOr(c))
            && (StartsWithNot(l) ==> StartsWithNot(c))
  {
  }

  lemma AndShape(l: Cond, r: Cond)
    requires IsNot(r)
    ensures var c := BoolOp(l, And, r);
            && YieldC(c) == YieldC(l) + [And] + YieldC(r) && (IsAnd(l) ==> IsAnd(c)) && (IsOpenAnd(l) ==> IsOpenAnd(c))
            && (StartsWithNot(l) ==> StartsWithNot(c))
  {
  }

  lemma BinaryShape(e: Expr)
    requires IsExpression(e) && e.Binary?
    ensures IsExpression(e.left)
  {
    assert !IsFactor(e);
    Widen(e.left);
  }

  lemma ParenContents(x: Expr)
    ensures IsExpression(Paren(x)) <==> IsExpression(x)
    ensures IsExpression(x) ==> IsTerm(Paren(x))
  {
    assert IsFactor(Paren(x)) <==> IsExpression(x);
    assert IsTerm(Paren(x)) <==> IsFactor(Paren(x));
  }

  /** Only an expression that begins with a parenthesised one begins with a parenthesis. */
  lemma {:induction false} FirstToken(e: Expr)
    requires IsExpression(e)
    ensures YieldE(e) != []
    ensures YieldE(e)[0].LParen? <==> FirstFactor(e).Paren?
    ensures !YieldE(e)[0].Not?
    ensures !YieldE(e)[0].RParen?
    ensures !YieldE(e)[0].Star?
    ensures !YieldE(e)[0].Distinct?
    decreases e
  {
    if e.Binary? {
      BinaryShape(e);
      FirstToken(e.left);
    } else {
      assert IsTerm(e);
      assert IsFactor(e);
    }
  }

  lemma NarrowCondition(c: Cond)
    ensures IsOr(c) && !(c.BoolOp? && c.op.Or?) ==> IsAnd(c)
    ensures IsAnd(c) && !(c.BoolOp? && c.op.And?) ==> IsNot(c)
    ensures IsNot(c) && !c.NotC? ==> IsPrimary(c)
    ensures IsPrimary(c) && !c.ParenC? ==> IsPredicate(c)
    ensures IsOpenOr(c) && !(c.BoolOp? && c.op.Or?) ==> IsOpenAnd(c)
    ensures IsOpenAnd(c) && !(c.BoolOp? && c.op.And?) ==> IsPredicate(c)
  {
  }

  lemma {:induction false} ConditionStart(c: Cond)
    requires IsOr(c) || IsOpenOr(c)
    ensures YieldC(c) != []
    ensures !YieldC(c)[0].RParen?
    ensures !YieldC(c)[0].Star?
    ensures !YieldC(c)[0].Distinct?
    ensures IsOr(c) && StartsWithNot(c) ==> YieldC(c)[0].Not?
    ensures IsOpenOr(c) ==> !YieldC(c)[0].Not?
    decreases c
  {
    NarrowCondition(c);
    NoChain(c);
    if c.BoolOp? {
      WidenCondition(c.first);
      ConditionStart(c.first);
    } else if !c.NotC? && !c.ParenC? {
      PredicateYield(c);
      FirstToken(Subject(c));
    }
  }

  /** The tokens of a predicate after its subject. */
  function TailTokens(c: Cond): seq<Token> {
    match c
    case Compare(_, op, r) => [op] + YieldE(r)
    case LikeP(_, n, p) => Negation(n) + ([Like] + YieldE(p))
    case IsNull(_, n) => [Is] + (Negation(n) + [Null])
    case InP(_, n, v) => Negation(n) + ([In] + InList(v))
    case BetweenP(_, n, lo, hi) => Negation(n) + ([Between] + (YieldE(lo) + ([And] + YieldE(hi))))
    case _ => []
  }

  lemma PredicateYield(c: Cond)
    requires IsPredicate(c)
    ensures YieldC(c) == YieldE(Subject(c)) + TailTokens(c)
    ensures IsExpression(Subject(c))
  {
    hide YieldE, InList, IsExpression, AreExpressions, Negation;
    if c.Truth? {
      assert YieldE(c.expr) + [] == YieldE(c.expr);
    }
  }

  lemma PredicateTokens(c: Cond, rest: seq<Token>)
    requires IsPredicate(c)
    ensures YieldC(c) + rest == YieldE(Subject(c)) + (TailTokens(c) + rest)
    ensures IsExpression(Subject(c))
    ensures Subject(c) < c
  {
    PredicateYield(c);
    hide YieldC, YieldE, TailTokens, IsExpression, AreExpressions;
  }
}
