/** Tokens and expressions of the SQL parsers, and what it means for a tree to respect precedence. */
module Expressions {

  datatype Op = Plus | Minus | Mul | Div | Eq | Neq | Gt | GtEq | Lt | LtEq | And | Or

  /** Tokens between white space.  `Other` is any token that neither starts, joins nor closes an
      expression; `Bad` is where the tokenizer failed. */
  datatype Token =
    | Ident(name: string)
    | Str(text: string)
    | Bool(b: bool)
    | Number(n: nat)
    | Operator(op: Op)
    | LeftParen
    | RightParen
    | Other(id: nat)
    | Bad

  datatype Sign = Positive | Negative

  datatype Expr =
    | Identifier(name: string)
    | Wildcard
    | StringValue(text: string)
    | BoolValue(b: bool)
    | NumberValue(n: nat)
    | Unary(sign: Sign, expr: Expr)
    | Binary(left: Expr, op: Op, right: Expr)
    | Nested(expr: Expr)

  const UNARY_ARITHMETIC_OPERATOR_PRECEDENCE := 50

  function Precedence(op: Op): (p: nat)
    ensures 0 < p < UNARY_ARITHMETIC_OPERATOR_PRECEDENCE
  {
    match op
    case Or => 5
    case And => 10
    case Eq | Neq | Gt | GtEq | Lt | LtEq => 20
    case Plus | Minus => 30
    case Mul | Div => 40
  }

  /** Precedence of the operator a token list starts with, 0 if it starts with anything else. */
  function NextPrecedence(ts: seq<Token>): nat {
    if ts != [] && ts[0].Operator? then Precedence(ts[0].op) else 0
  }

  /** How tightly the outermost operator of a tree binds; anything but a binary operation binds
      tighter than every operator. */
  function Level(e: Expr): nat {
    match e
    case Binary(_, op, _) => Precedence(op)
    case _ => 100
  }

  /** Trees with every grouping that is against precedence or to the right written as `Nested`. */
  predicate WellFormed(e: Expr) {
    match e
    case Unary(_, x) => WellFormed(x) && Level(x) > UNARY_ARITHMETIC_OPERATOR_PRECEDENCE
    case Binary(l, op, r) => WellFormed(l) && WellFormed(r) && Level(l) >= Precedence(op) && Level(r) > Precedence(op)
    case Nested(x) => WellFormed(x)
    case _ => true
  }

  /** Every number of the tree is at most `max`. */
  predicate Fits(e: Expr, max: nat) {
    match e
    case NumberValue(n) => n <= max
    case Unary(_, x) => Fits(x, max)
    case Binary(l, _, r) => Fits(l, max) && Fits(r, max)
    case Nested(x) => Fits(x, max)
    case _ => true
  }

  // ---- Which operator binds tighter, class by class ----

  const PRODUCTS := {Mul, Div}
  const SUMS := {Plus, Minus}
  const COMPARISONS := {Eq, Neq, Gt, GtEq, Lt, LtEq}

  /** `a` is in a class above that of `b`. */
  predicate Tighter(a: Op, b: Op) {
    || (a in PRODUCTS && b !in PRODUCTS)
    || (a in SUMS && (b in COMPARISONS || b == And || b == Or))
    || (a in COMPARISONS && (b == And || b == Or))
    || (a == And && b == Or)
  }

  /** What is written as one token. */
  predicate Atom(e: Expr) {
    e.Identifier? || e.StringValue? || e.BoolValue? || e.NumberValue?
  }

  function AtomToken(e: Expr): Token
    requires Atom(e)
  {
    match e
    case Identifier(name) => Ident(name)
    case StringValue(text) => Str(text)
    case BoolValue(b) => Bool(b)
    case NumberValue(n) => Number(n)
  }

  /** The tree of `a op1 b op2 c`: the tighter operator first, else the one on the left. */
  function TreeOfThree(a: Expr, op1: Op, b: Expr, op2: Op, c: Expr): Expr {
    if Tighter(op2, op1) then Binary(a, op1, Binary(b, op2, c)) else Binary(Binary(a, op1, b), op2, c)
  }

  function SignToken(s: Sign): Token {
    if s == Positive then Operator(Plus) else Operator(Minus)
  }

  /** The tokens of a tree, in order. */
  function Flatten(e: Expr): (ts: seq<Token>)
    ensures ts != []
  {
    match e
    case Identifier(name) => [Ident(name)]
    case Wildcard => [Operator(Mul)]
    case StringValue(text) => [Str(text)]
    case BoolValue(b) => [Bool(b)]
    case NumberValue(n) => [Number(n)]
    case Unary(s, x) => [SignToken(s)] + Flatten(x)
    case Binary(l, op, r) => Flatten(l) + [Operator(op)] + Flatten(r)
    case Nested(x) => [LeftParen] + Flatten(x) + [RightParen]
  }

  /** What the recursive-descent parser of the experiments reports. */
  datatype ErrorKind =
    | TokenizerError
    | Expected(found: Token)
    | ExpectedOneOf(found: Token)
    | UnexpectedEof
    | IntegerOutOfRange(n: nat)

  datatype Result<+T, +E> = Ok(value: T) | Err(kind: E)

  /** A parsed tree and the tokens that are left. */
  datatype Parsed<T> = Parsed(tree: T, rest: seq<Token>)
}
