/** The recursive descent of the SQL parser as functions on what is left of the input
    (internal/sql/parser/parse_expressions.go, parse_conditions.go). */
module Grammar {
  import opened Syntax

  datatype Result<+T> = Ok(value: T, rest: seq<Token>) | Error

  predicate Next(ts: seq<Token>, t: Token) {
    ts != [] && ts[0] == t
  }

  /** The current token can begin a predicate tail. */
  predicate StartsPredicate(ts: seq<Token>) {
    ts != [] &&
    (IsComparison(ts[0]) || ts[0].Like? || ts[0].Is? || ts[0].In? || ts[0].Between?
     || (ts[0].Not? && |ts| > 1 && (ts[1].Like? || ts[1].In? || ts[1].Between?)))
  }

  function Expression(ts: seq<Token>): (r: Result<Expr>)
    ensures r.Ok? ==> |r.rest| < |ts|
    decreases |ts|, 5
  {
    match Term(ts)
    case Error => Error
    case Ok(left, rest) => ExpressionTail(left, rest)
  }

  function ExpressionTail(left: Expr, ts: seq<Token>): (r: Result<Expr>)
    ensures r.Ok? ==> |r.rest| <= |ts|
    decreases |ts|, 5
  {
    if ts == [] || !IsAdditive(ts[0]) then Ok(left, ts)
    else match Term(ts[1..])
      case Error => Error
      case Ok(right, rest) => ExpressionTail(Binary(left, ts[0], right), rest)
  }

  function Term(ts: seq<Token>): (r: Result<Expr>)
    ensures r.Ok? ==> |r.rest| < |ts|
    decreases |ts|, 4
  {
    match Factor(ts)
    case Error => Error
    case Ok(left, rest) => TermTail(left, rest)
  }

  function TermTail(left: Expr, ts: seq<Token>): (r: Result<Expr>)
    ensures r.Ok? ==> |r.rest| <= |ts|
    decreases |ts|, 4
  {
    if ts == [] || !IsMultiplicative(ts[0]) then Ok(left, ts)
    else match Factor(ts[1..])
      case Error => Error
      case Ok(right, rest) => TermTail(Binary(left, ts[0], right), rest)
  }

  function Factor(ts: seq<Token>): (r: Result<Expr>)
    ensures r.Ok? ==> |r.rest| < |ts|
    decreases |ts|, 3
  {
    if ts == [] then Error
    else match ts[0]
      case Plus => Signed(ts)
      case Minus => Signed(ts)
      case LParen =>
        (match Expression(ts[1..])
         case Error => Error
         case Ok(inner, rest) => if Next(rest, RParen) then Ok(Paren(inner), rest[1..]) else Error)
      case Ident(name) => if |ts| > 1 && ts[1].LParen? then FunctionCall(ts) else QualifiedIdentifier(ts)
      case _ => if IsLiteral(ts[0]) then Ok(Literal(ts[0]), ts[1..]) else Error
  }

  function Signed(ts: seq<Token>): (r: Result<Expr>)
    requires ts != []
    ensures r.Ok? ==> |r.rest| < |ts|
    decreases |ts|, 2
  {
    match Factor(ts[1..])
    case Error => Error
    case Ok(operand, rest) => Ok(Unary(ts[0], operand), rest)
  }

  function QualifiedIdentifier(ts: seq<Token>): (r: Result<Expr>)
    requires ts != [] && ts[0].Ident?
    ensures r.Ok? ==> |r.rest| < |ts|
  {
    if |ts| > 2 && ts[1].Dot? && ts[2].Ident? then Ok(Column(Some(ts[0].name), ts[2].name), ts[3..])
    else Ok(Column(None, ts[0].name), ts[1..])
  }

  function FunctionCall(ts: seq<Token>): (r: Result<Expr>)
    requires |ts| > 1 && ts[0].Ident? && ts[1].LParen?
    ensures r.Ok? ==> |r.rest| < |ts|
    decreases |ts|, 2
  {
    var name, inside := ts[0].name, ts[2..];
    if Next(inside, RParen) then Ok(Call(name, NoArgs), inside[1..])
    else if Next(inside, Star) then (if Next(inside[1..], RParen) then Ok(Call(name, StarArg), inside[2..]) else Error)
    else
      var distinct := Next(inside, Distinct);
      match Arguments(if distinct then inside[1..] else inside)
      case Error => Error
      case Ok(items, rest) => if Next(rest, RParen) then Ok(Call(name, ArgList(distinct, items)), rest[1..]) else Error
  }

  function Arguments(ts: seq<Token>): (r: Result<Selects>)
    ensures r.Ok? ==> |r.rest| < |ts|
    decreases |ts|, 30
  {
    match SelectExpression(ts)
    case Error => Error
    case Ok(s, rest) => ArgumentsTail(OneSelect(s), rest)
  }

  function ArgumentsTail(front: Selects, ts: seq<Token>): (r: Result<Selects>)
    ensures r.Ok? ==> |r.rest| <= |ts|
    decreases |ts|, 30
  {
    if !Next(ts, Comma) then Ok(front, ts)
    else match SelectExpression(ts[1..])
      case Error => Error
      case Ok(s, rest) => ArgumentsTail(MoreSelects(front, s), rest)
  }

  function SelectExpression(ts: seq<Token>): (r: Result<Select>)
    ensures r.Ok? ==> |r.rest| < |ts|
    decreases |ts|, 25
  {
    if Next(ts, Not) then
      match OrCondition(ts)
      case Error => Error
      case Ok(c, rest) => Ok(OfCond(c), rest)
    else
      match Expression(ts)
      case Error => Error
      case Ok(e, rest) => SelectFromExpression(e, rest)
  }

  function SelectFromExpression(e: Expr, ts: seq<Token>): (r: Result<Select>)
    ensures r.Ok? ==> |r.rest| <= |ts|
    decreases |ts|, 24
  {
    if !StartsPredicate(ts) && !Next(ts, And) && !Next(ts, Or) then Ok(OfExpr(e), ts)
    else match Continuation(e, ts)
      case Error => Error
      case Ok(c, rest) => Ok(OfCond(c), rest)
  }

  function OrCondition(ts: seq<Token>): (r: Result<Cond>)
    ensures r.Ok? ==> |r.rest| < |ts|
    decreases |ts|, 20
  {
    match AndCondition(ts)
    case Error => Error
    case Ok(left, rest) => OrTail(left, rest)
  }

  function OrTail(left: Cond, ts: seq<Token>): (r: Result<Cond>)
    ensures r.Ok? ==> |r.rest| <= |ts|
    decreases |ts|, 20
  {
    if !Next(ts, Or) then Ok(left, ts)
    else match AndCondition(ts[1..])
      case Error => Error
      case Ok(right, rest) => OrTail(BoolOp(left, Or, right), rest)
  }

  function AndCondition(ts: seq<Token>): (r: Result<Cond>)
    ensures r.Ok? ==> |r.rest| < |ts|
    decreases |ts|, 19
  {
    match NotCondition(ts)
    case Error => Error
    case Ok(left, rest) => AndTail(left, rest)
  }

  function AndTail(left: Cond, ts: seq<Token>): (r: Result<Cond>)
    ensures r.Ok? ==> |r.rest| <= |ts|
    decreases |ts|, 19
  {
    if !Next(ts, And) then Ok(left, ts)
    else match NotCondition(ts[1..])
      case Error => Error
      case Ok(right, rest) => AndTail(BoolOp(left, And, right), rest)
  }

  function NotCondition(ts: seq<Token>): (r: Result<Cond>)
    ensures r.Ok? ==> |r.rest| < |ts|
    decreases |ts|, 18
  {
    if Next(ts, Not) then
      match NotCondition(ts[1..])
      case Error => Error
      case Ok(c, rest) => Ok(NotC(c), rest)
    else ConditionPrimary(ts)
  }

  function ConditionPrimary(ts: seq<Token>): (r: Result<Cond>)
    ensures r.Ok? ==> |r.rest| < |ts|
    decreases |ts|, 17
  {
    if Next(ts, LParen) then
      match Expression(ts[1..])
      case Error => Error
      case Ok(e, rest) =>
        if Next(rest, RParen) then PredicateOrTruth(Paren(e), rest[1..])
        else match Continuation(e, rest)
          case Error => Error
          case Ok(c, after) => if Next(after, RParen) then Ok(ParenC(c), after[1..]) else Error
    else
      match Expression(ts)
      case Error => Error
      case Ok(e, rest) => PredicateOrTruth(e, rest)
  }

  function PredicateOrTruth(e: Expr, ts: seq<Token>): (r: Result<Cond>)
    ensures r.Ok? ==> |r.rest| <= |ts|
    decreases |ts|, 16
  {
    if StartsPredicate(ts) then PredicateTail(e, ts) else Ok(Truth(e), ts)
  }

  /** After an expression inside parentheses or in a select list. */
  function Continuation(e: Expr, ts: seq<Token>): (r: Result<Cond>)
    ensures r.Ok? ==> |r.rest| <= |ts|
    decreases |ts|, 22
  {
    if StartsPredicate(ts) then
      match PredicateTail(e, ts)
      case Error => Error
      case Ok(c, rest) => OrTailFromLeft(c, rest)
    else if Next(ts, And) || Next(ts, Or) then OrTailFromLeft(Truth(e), ts)
    else Error
  }

  function OrTailFromLeft(c: Cond, ts: seq<Token>): (r: Result<Cond>)
    ensures r.Ok? ==> |r.rest| <= |ts|
    decreases |ts|, 21
  {
    match AndTail(c, ts)
    case Error => Error
    case Ok(left, rest) => OrTail(left, rest)
  }

  function PredicateTail(e: Expr, ts: seq<Token>): (r: Result<Cond>)
    requires StartsPredicate(ts)
    ensures r.Ok? ==> |r.rest| < |ts|
    decreases |ts|, 7
  {
    if IsComparison(ts[0]) then
      match Expression(ts[1..])
      case Error => Error
      case Ok(right, rest) => Ok(Compare(e, ts[0], right), rest)
    else if ts[0].Is? then
      var negated := Next(ts[1..], Not);
      var after := if negated then ts[2..] else ts[1..];
      if Next(after, Null) then Ok(IsNull(e, negated), after[1..]) else Error
    else if ts[0].Not? then Membership(e, true, ts[1..])
    else Membership(e, false, ts)
  }

  /** LIKE, IN and BETWEEN, after an optional NOT. */
  function Membership(e: Expr, negated: bool, ts: seq<Token>): (r: Result<Cond>)
    requires ts != [] && (ts[0].Like? || ts[0].In? || ts[0].Between?)
    ensures r.Ok? ==> |r.rest| < |ts|
    decreases |ts|, 6
  {
    match ts[0]
    case Like =>
      (match Expression(ts[1..])
       case Error => Error
       case Ok(p, rest) => Ok(LikeP(e, negated, p), rest))
    case In =>
      (match ExpressionList(ts[1..])
       case Error => Error
       case Ok(v, rest) => Ok(InP(e, negated, v), rest))
    case Between =>
      (match Expression(ts[1..])
       case Error => Error
       case Ok(lo, rest) =>
         if !Next(rest, And) then Error
         else match Expression(rest[1..])
           case Error => Error
           case Ok(hi, after) => Ok(BetweenP(e, negated, lo, hi), after))
  }

  function ExpressionList(ts: seq<Token>): (r: Result<Exprs>)
    ensures r.Ok? ==> |r.rest| < |ts|
    decreases |ts|, 6
  {
    if !Next(ts, LParen) then Error
    else match Expression(ts[1..])
      case Error => Error
      case Ok(e, rest) =>
        match ExpressionListTail(OneExpr(e), rest)
        case Error => Error
        case Ok(v, after) => if Next(after, RParen) then Ok(v, after[1..]) else Error
  }

  function ExpressionListTail(front: Exprs, ts: seq<Token>): (r: Result<Exprs>)
    ensures r.Ok? ==> |r.rest| <= |ts|
    decreases |ts|, 6
  {
    if !Next(ts, Comma) then Ok(front, ts)
    else match Expression(ts[1..])
      case Error => Error
      case Ok(e, rest) => ExpressionListTail(MoreExprs(front, e), rest)
  }

  /** Continues an expression whose first factor was assembled elsewhere. */
  function ExpressionFromFactor(factor: Expr, ts: seq<Token>): Result<Expr> {
    match TermTail(factor, ts)
    case Error => Error
    case Ok(left, rest) => ExpressionTail(left, rest)
  }
}
