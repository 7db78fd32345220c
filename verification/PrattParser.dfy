/** The operator-precedence parser of experiments/parser_in_rust/parser.rs.  The three mutually
    recursive functions say what each method returns and leaves; parsing and flattening are then
    proved to be inverse to each other. */
module PrattParser {
  import opened Expressions

  function ParseExprSpec(ts: seq<Token>, p: nat, max: nat): (r: Result<Parsed<Expr>, ErrorKind>)
    ensures r.Ok? ==> |r.value.rest| < |ts|
    decreases |ts|, 2
  {
    match ParsePrefixSpec(ts, max)
    case Ok(Parsed(e, rest)) => ParseLoopSpec(e, rest, p, max)
    case Err(k) => Err(k)
  }

  function ParsePrefixSpec(ts: seq<Token>, max: nat): (r: Result<Parsed<Expr>, ErrorKind>)
    ensures r.Ok? ==> |r.value.rest| < |ts|
    decreases |ts|, 1
  {
    if ts == [] then Err(UnexpectedEof) else
    match ts[0]
    case Ident(name) => Ok(Parsed(Identifier(name), ts[1..]))
    case Operator(Mul) => Ok(Parsed(Wildcard, ts[1..]))
    case Str(text) => Ok(Parsed(StringValue(text), ts[1..]))
    case Bool(b) => Ok(Parsed(BoolValue(b), ts[1..]))
    case Number(n) => if n <= max then Ok(Parsed(NumberValue(n), ts[1..])) else Err(IntegerOutOfRange(n))
    case Operator(Plus) | Operator(Minus) =>
      (match ParseExprSpec(ts[1..], UNARY_ARITHMETIC_OPERATOR_PRECEDENCE, max)
       case Ok(Parsed(e, rest)) => Ok(Parsed(Unary(if ts[0].op == Plus then Positive else Negative, e), rest))
       case Err(k) => Err(k))
    case LeftParen =>
      (match ParseExprSpec(ts[1..], 0, max)
       case Ok(Parsed(e, rest)) =>
         if rest == [] then Err(UnexpectedEof)
         else if rest[0] == Bad then Err(TokenizerError)
         else if rest[0] != RightParen then Err(Expected(rest[0]))
         else Ok(Parsed(Nested(e), rest[1..]))
       case Err(k) => Err(k))
    case Bad => Err(TokenizerError)
    case _ => Err(ExpectedOneOf(ts[0]))
  }

  function ParseLoopSpec(left: Expr, ts: seq<Token>, p: nat, max: nat): (r: Result<Parsed<Expr>, ErrorKind>)
    ensures r.Ok? ==> |r.value.rest| <= |ts|
    decreases |ts|, 0
  {
    if p < NextPrecedence(ts) then
      match ParseExprSpec(ts[1..], NextPrecedence(ts), max)
      case Ok(Parsed(e, rest)) => ParseLoopSpec(Binary(left, ts[0].op, e), rest, p, max)
      case Err(k) => Err(k)
    else Ok(Parsed(left, ts))
  }

  // ---- Parsing what was flattened ----

  lemma AfterPrefix(ts: seq<Token>, p: nat, max: nat, e: Expr, rest: seq<Token>)
    requires ParsePrefixSpec(ts, max) == Ok(Parsed(e, rest))
    ensures ParseExprSpec(ts, p, max) == ParseLoopSpec(e, rest, p, max)
  {
  }

  lemma PrefixOfOne(e: Expr, ts: seq<Token>, max: nat)
    requires e.Identifier? || e.Wildcard? || e.StringValue? || e.BoolValue? || e.NumberValue?
    requires Fits(e, max) && ts != [] && Flatten(e) == [ts[0]]
    ensures ParsePrefixSpec(ts, max) == Ok(Parsed(e, ts[1..]))
  {
    assert Flatten(e)[0] == ts[0];
  }

  lemma PrefixOfUnary(s: Sign, x: Expr, ts: seq<Token>, rest: seq<Token>, max: nat)
    requires ts != [] && ts[0] == SignToken(s)
    requires ParseExprSpec(ts[1..], UNARY_ARITHMETIC_OPERATOR_PRECEDENCE, max) == Ok(Parsed(x, rest))
    ensures ParsePrefixSpec(ts, max) == Ok(Parsed(Unary(s, x), rest))
  {
  }

  lemma PrefixOfNested(x: Expr, ts: seq<Token>, rest: seq<Token>, max: nat)
    requires ts != [] && ts[0] == LeftParen && rest != [] && rest[0] == RightParen
    requires ParseExprSpec(ts[1..], 0, max) == Ok(Parsed(x, rest))
    ensures ParsePrefixSpec(ts, max) == Ok(Parsed(Nested(x), rest[1..]))
  {
  }

  lemma LoopStops(left: Expr, ts: seq<Token>, p: nat, max: nat)
    requires NextPrecedence(ts) <= p
    ensures ParseLoopSpec(left, ts, p, max) == Ok(Parsed(left, ts))
  {
  }

  lemma LoopTurns(left: Expr, op: Op, right: Expr, ts: seq<Token>, rest: seq<Token>, p: nat, max: nat)
    requires ts != [] && ts[0] == Operator(op) && p < Precedence(op)
    requires ParseExprSpec(ts[1..], Precedence(op), max) == Ok(Parsed(right, rest))
    ensures ParseLoopSpec(left, ts, p, max) == ParseLoopSpec(Binary(left, op, right), rest, p, max)
  {
  }

  lemma ParseAtom(e: Expr, rest: seq<Token>, p: nat, max: nat)
    requires e.Identifier? || e.Wildcard? || e.StringValue? || e.BoolValue? || e.NumberValue?
    requires Fits(e, max)
    ensures ParseExprSpec(Flatten(e) + rest, p, max) == ParseLoopSpec(e, rest, p, max)
  {
    hide ParseExprSpec, ParsePrefixSpec, ParseLoopSpec;
    var ts := Flatten(e) + rest;
    assert ts[1..] == rest;
    PrefixOfOne(e, ts, max);
    AfterPrefix(ts, p, max, e, rest);
  }

  /** The tokens of a binary tree and what follows them: those of the left operand, then the operator. */
  lemma FlattenBinary(l: Expr, op: Op, r: Expr, rest: seq<Token>)
    ensures var more := [Operator(op)] + Flatten(r) + rest;
      Flatten(Binary(l, op, r)) + rest == Flatten(l) + more && more[0] == Operator(op) && more[1..] == Flatten(r) + rest
  {
  }

  lemma FlattenInner(e: Expr, rest: seq<Token>)
    requires e.Unary? || e.Nested?
    ensures var ts := Flatten(e) + rest;
      && ts[0] == (if e.Unary? then SignToken(e.sign) else LeftParen)
      && ts[1..] == Flatten(e.expr) + (if e.Unary? then rest else [RightParen] + rest)
  {
  }

  /** Parsing the tokens of a well-formed tree reaches the point where the loop holds that tree. */
  lemma {:induction false} ParseFlattened(e: Expr, rest: seq<Token>, p: nat, max: nat)
    requires WellFormed(e) && Fits(e, max) && Level(e) > p && NextPrecedence(rest) <= Level(e)
    ensures ParseExprSpec(Flatten(e) + rest, p, max) == ParseLoopSpec(e, rest, p, max)
    decreases e
  {
    hide ParseExprSpec, ParsePrefixSpec, ParseLoopSpec, Flatten;
    match e
    case Unary(s, x) =>
      FlattenInner(e, rest);
      ParseFlattened(x, rest, UNARY_ARITHMETIC_OPERATOR_PRECEDENCE, max);
      LoopStops(x, rest, UNARY_ARITHMETIC_OPERATOR_PRECEDENCE, max);
      PrefixOfUnary(s, x, Flatten(e) + rest, rest, max);
      AfterPrefix(Flatten(e) + rest, p, max, e, rest);
    case Nested(x) =>
      FlattenInner(e, rest);
      var more := [RightParen] + rest;
      ParseFlattened(x, more, 0, max);
      LoopStops(x, more, 0, max);
      PrefixOfNested(x, Flatten(e) + rest, more, max);
      assert more[1..] == rest;
      AfterPrefix(Flatten(e) + rest, p, max, e, rest);
    case Binary(l, op, r) =>
      FlattenBinary(l, op, r, rest);
      var more := [Operator(op)] + Flatten(r) + rest;
      ParseFlattened(l, more, p, max);
      ParseFlattened(r, rest, Precedence(op), max);
      LoopStops(r, rest, Precedence(op), max);
      LoopTurns(l, op, r, more, rest, p, max);
    case _ =>
      ParseAtom(e, rest, p, max);
  }

  /** Parsing undoes flattening. */
  lemma FlattenThenParse(e: Expr, rest: seq<Token>, max: nat)
    requires WellFormed(e) && Fits(e, max) && NextPrecedence(rest) == 0
    ensures ParseExprSpec(Flatten(e) + rest, 0, max) == Ok(Parsed(e, rest))
  {
    ParseFlattened(e, rest, 0, max);
  }

  // ---- Flattening what was parsed ----

  /** `e` is a well-formed tree of exactly the tokens `ts` has before `rest`. */
  predicate Reads(e: Expr, ts: seq<Token>, rest: seq<Token>, max: nat) {
    WellFormed(e) && Fits(e, max) && ts == Flatten(e) + rest
  }

  lemma TwoOperands(a: Expr, op: Op, b: Expr)
    requires Atom(a) && Atom(b)
    ensures Flatten(a) == [AtomToken(a)] && Flatten(b) == [AtomToken(b)]
    ensures Flatten(Binary(a, op, b)) == [AtomToken(a), Operator(op), AtomToken(b)] && WellFormed(Binary(a, op, b))
  {
  }

  /** `a op1 b op2 c`, for every pair of operators. */
  lemma ThreeOperands(a: Expr, op1: Op, b: Expr, op2: Op, c: Expr, rest: seq<Token>, max: nat)
    requires Atom(a) && Atom(b) && Atom(c) && Fits(a, max) && Fits(b, max) && Fits(c, max)
    requires rest == [] || !rest[0].Operator?
    ensures ParseExprSpec([AtomToken(a), Operator(op1), AtomToken(b), Operator(op2), AtomToken(c)] + rest, 0, max)
      == Ok(Parsed(TreeOfThree(a, op1, b, op2, c), rest))
  {
    hide ParseExprSpec;
    var e := TreeOfThree(a, op1, b, op2, c);
    TwoOperands(a, op1, b);
    TwoOperands(b, op2, c);
    assert Flatten(e) == [AtomToken(a), Operator(op1), AtomToken(b), Operator(op2), AtomToken(c)];
    FlattenThenParse(e, rest, max);
  }

  /** A group on the right of an operator. */
  lemma GroupedOperand(a: Expr, op1: Op, b: Expr, op2: Op, c: Expr)
    requires Atom(a) && Atom(b) && Atom(c)
    ensures var e := Binary(a, op1, Nested(Binary(b, op2, c)));
      && WellFormed(e)
      && Flatten(e) == [AtomToken(a), Operator(op1), LeftParen, AtomToken(b), Operator(op2), AtomToken(c), RightParen]
  {
    TwoOperands(b, op2, c);
    TwoOperands(a, op1, b);
    var group := Nested(Binary(b, op2, c));
    assert Flatten(group) == [LeftParen] + Flatten(Binary(b, op2, c)) + [RightParen] && WellFormed(group);
  }

  /** A group overrides precedence. */
  lemma GroupFirst(a: Expr, op1: Op, b: Expr, op2: Op, c: Expr, rest: seq<Token>, max: nat)
    requires Atom(a) && Atom(b) && Atom(c) && Fits(a, max) && Fits(b, max) && Fits(c, max)
    requires rest == [] || !rest[0].Operator?
    ensures var ts := [AtomToken(a), Operator(op1), LeftParen, AtomToken(b), Operator(op2), AtomToken(c), RightParen];
      ParseExprSpec(ts + rest, 0, max) == Ok(Parsed(Binary(a, op1, Nested(Binary(b, op2, c))), rest))
  {
    hide ParseExprSpec;
    GroupedOperand(a, op1, b, op2, c);
    assert Fits(Nested(Binary(b, op2, c)), max);
    FlattenThenParse(Binary(a, op1, Nested(Binary(b, op2, c))), rest, max);
  }

  /** A sign binds tighter than any operator behind it. */
  lemma SignFirst(a: Expr, op: Op, b: Expr, rest: seq<Token>, max: nat)
    requires Atom(a) && Atom(b) && Fits(a, max) && Fits(b, max) && (rest == [] || !rest[0].Operator?)
    ensures ParseExprSpec([Operator(Minus), AtomToken(a), Operator(op), AtomToken(b)] + rest, 0, max)
      == Ok(Parsed(Binary(Unary(Negative, a), op, b), rest))
    ensures ParseExprSpec([Operator(Plus), AtomToken(a), Operator(op), AtomToken(b)] + rest, 0, max)
      == Ok(Parsed(Binary(Unary(Positive, a), op, b), rest))
  {
    hide ParseExprSpec;
    TwoOperands(a, op, b);
    assert Flatten(Unary(Negative, a)) == [Operator(Minus)] + Flatten(a);
    assert Flatten(Unary(Positive, a)) == [Operator(Plus)] + Flatten(a);
    var minus, plus := Binary(Unary(Negative, a), op, b), Binary(Unary(Positive, a), op, b);
    assert Flatten(minus) == [Operator(Minus), AtomToken(a), Operator(op), AtomToken(b)];
    assert Flatten(plus) == [Operator(Plus), AtomToken(a), Operator(op), AtomToken(b)];
    FlattenThenParse(minus, rest, max);
    FlattenThenParse(plus, rest, max);
  }

  lemma {:induction false} ParsedExpr(ts: seq<Token>, p: nat, max: nat)
    ensures var r := ParseExprSpec(ts, p, max);
      r.Ok? && p < 100 ==>
        Reads(r.value.tree, ts, r.value.rest, max) && Level(r.value.tree) > p && NextPrecedence(r.value.rest) <= p
    decreases |ts|, 2
  {
    ParsedPrefix(ts, max);
    var pr := ParsePrefixSpec(ts, max);
    if pr.Ok? && p < 100 {
      ParsedLoop(pr.value.tree, ts, pr.value.rest, p, max);
    }
  }

  lemma {:induction false} ParsedPrefix(ts: seq<Token>, max: nat)
    ensures var r := ParsePrefixSpec(ts, max);
      r.Ok? ==> Reads(r.value.tree, ts, r.value.rest, max) && Level(r.value.tree) == 100
    decreases |ts|, 1
  {
    hide Reads, ParseExprSpec;
    if ts != [] && (ts[0] == Operator(Plus) || ts[0] == Operator(Minus)) {
      ParsedExpr(ts[1..], UNARY_ARITHMETIC_OPERATOR_PRECEDENCE, max);
      ParsedSign(ts, max);
    } else if ts != [] && ts[0] == LeftParen {
      ParsedExpr(ts[1..], 0, max);
      ParsedGroup(ts, max);
    } else {
      ParsedAtom(ts, max);
    }
  }

  lemma ParsedAtom(ts: seq<Token>, max: nat)
    requires ts == [] || (ts[0] != Operator(Plus) && ts[0] != Operator(Minus) && ts[0] != LeftParen)
    ensures var r := ParsePrefixSpec(ts, max);
      r.Ok? ==> Reads(r.value.tree, ts, r.value.rest, max) && Level(r.value.tree) == 100
  {
    hide ParseExprSpec;
    assert ts != [] ==> ts == [ts[0]] + ts[1..];
  }

  lemma ParsedSign(ts: seq<Token>, max: nat)
    requires ts != [] && (ts[0] == Operator(Plus) || ts[0] == Operator(Minus))
    requires var r := ParseExprSpec(ts[1..], UNARY_ARITHMETIC_OPERATOR_PRECEDENCE, max);
      r.Ok? ==>
        && Reads(r.value.tree, ts[1..], r.value.rest, max)
        && Level(r.value.tree) > UNARY_ARITHMETIC_OPERATOR_PRECEDENCE
    ensures var r := ParsePrefixSpec(ts, max);
      r.Ok? ==> Reads(r.value.tree, ts, r.value.rest, max) && Level(r.value.tree) == 100
  {
    hide ParseExprSpec;
    var r := ParseExprSpec(ts[1..], UNARY_ARITHMETIC_OPERATOR_PRECEDENCE, max);
    if r.Ok? {
      var x := r.value;
      assert ts == [ts[0]] + ts[1..];
      assert ts == [ts[0]] + (Flatten(x.tree) + x.rest) == ([ts[0]] + Flatten(x.tree)) + x.rest;
    }
  }

  lemma ParsedGroup(ts: seq<Token>, max: nat)
    requires ts != [] && ts[0] == LeftParen
    requires var r := ParseExprSpec(ts[1..], 0, max); r.Ok? ==> Reads(r.value.tree, ts[1..], r.value.rest, max)
    ensures var r := ParsePrefixSpec(ts, max);
      r.Ok? ==> Reads(r.value.tree, ts, r.value.rest, max) && Level(r.value.tree) == 100
  {
    hide ParseExprSpec;
    var r := ParseExprSpec(ts[1..], 0, max);
    if r.Ok? && r.value.rest != [] && r.value.rest[0] == RightParen {
      var x := r.value;
      assert ts == [LeftParen] + ts[1..] && x.rest == [RightParen] + x.rest[1..];
      assert ts == [LeftParen] + (Flatten(x.tree) + ([RightParen] + x.rest[1..]))
                == ([LeftParen] + Flatten(x.tree) + [RightParen]) + x.rest[1..];
    }
  }

  /** What the loop holds on to: the tree so far reads what has been consumed, and the next
      operator does not bind tighter than it. */
  lemma {:induction false} ParsedLoop(left: Expr, all: seq<Token>, ts: seq<Token>, p: nat, max: nat)
    requires Reads(left, all, ts, max) && Level(left) > p && NextPrecedence(ts) <= Level(left)
    ensures var r := ParseLoopSpec(left, ts, p, max);
      r.Ok? ==>
        Reads(r.value.tree, all, r.value.rest, max) && Level(r.value.tree) > p && NextPrecedence(r.value.rest) <= p
    decreases |ts|, 0
  {
    if p < NextPrecedence(ts) {
      var q := NextPrecedence(ts);
      ParsedExpr(ts[1..], q, max);
      var r := ParseExprSpec(ts[1..], q, max);
      if r.Ok? {
        var e, rest := r.value.tree, r.value.rest;
        assert ts == [ts[0]] + ts[1..];
        assert all == Flatten(left) + ([ts[0]] + (Flatten(e) + rest)) == (Flatten(left) + [ts[0]] + Flatten(e)) + rest;
        ParsedLoop(Binary(left, ts[0].op, e), all, rest, p, max);
      }
    }
  }

  /** A list of tokens starts with the tokens of a well-formed tree in at most one way that leaves
      no operator behind, and parsing succeeds exactly when there is one. */
  lemma ParseExactly(ts: seq<Token>, e: Expr, rest: seq<Token>, max: nat)
    ensures ParseExprSpec(ts, 0, max) == Ok(Parsed(e, rest)) <==> Reads(e, ts, rest, max) && NextPrecedence(rest) == 0
  {
    if Reads(e, ts, rest, max) && NextPrecedence(rest) == 0 {
      FlattenThenParse(e, rest, max);
    }
    ParsedExpr(ts, 0, max);
  }

  // ---- The parser ----

  class Parser {
    const tokens: seq<Token>
    const max: nat      // greatest number a value can hold
    var pos: nat

    constructor (tokens: seq<Token>, max: nat)
      ensures this.tokens == tokens && this.max == max && Valid() && Rest() == tokens
    {
      this.tokens, this.max, pos := tokens, max, 0;
    }

    predicate Valid()
      reads this
    {
      pos <= |tokens|
    }

    ghost function Rest(): seq<Token>
      requires Valid()
      reads this
    {
      tokens[pos..]
    }

    /** The outcome of a method is the one computed, and on success so is what is left. */
    ghost predicate Outcome(spec: Result<Parsed<Expr>, ErrorKind>, r: Result<Expr, ErrorKind>)
      reads this
    {
      && Valid()
      && (match spec
          case Ok(Parsed(e, rest)) => r == Ok(e) && Rest() == rest
          case Err(k) => r == Err(k))
    }

    method NextToken() returns (r: Result<Token, ErrorKind>)
      requires Valid()
      modifies this
      ensures Valid() && old(pos) <= pos
      ensures old(Rest()) == [] ==> r == Err(UnexpectedEof)
      ensures old(Rest()) != [] ==>
        Rest() == old(Rest())[1..] && r == if old(Rest())[0] == Bad then Err(TokenizerError) else Ok(old(Rest())[0])
    {
      if pos == |tokens| {
        return Err(UnexpectedEof);
      }
      pos := pos + 1;
      if tokens[pos - 1] == Bad {
        return Err(TokenizerError);
      }
      return Ok(tokens[pos - 1]);
    }

    method GetNextPrecedence() returns (p: nat)
      requires Valid()
      ensures p == NextPrecedence(Rest())
      ensures forall op :: Rest() != [] && Rest()[0] == Operator(op) ==>
        && (op in PRODUCTS <==> p == 40) && (op in SUMS <==> p == 30) && (op in COMPARISONS <==> p == 20)
        && (op == And <==> p == 10) && (op == Or <==> p == 5)
    {
      if pos == |tokens| {
        return 0;
      }
      match tokens[pos]
      case Operator(Or) => p := 5;
      case Operator(And) => p := 10;
      case Operator(Eq) | Operator(Neq) | Operator(Gt) | Operator(GtEq) | Operator(Lt) | Operator(LtEq) => p := 20;
      case Operator(Plus) | Operator(Minus) => p := 30;
      case Operator(Mul) | Operator(Div) => p := 40;
      case _ => p := 0;
    }

    /** Starts the descent. */
    method ParseExpression() returns (r: Result<Expr, ErrorKind>)
      requires Valid()
      modifies this
      ensures Outcome(ParseExprSpec(old(Rest()), 0, max), r)
      decreases |tokens| - pos, 3
    {
      r := ParseExpr(0);
    }

    method ParseExpr(precedence: nat) returns (r: Result<Expr, ErrorKind>)
      requires Valid()
      modifies this
      ensures Outcome(ParseExprSpec(old(Rest()), precedence, max), r)
      decreases |tokens| - pos, 2
    {
      ghost var spec := ParseExprSpec(Rest(), precedence, max);
      var prefix := ParsePrefix();
      if prefix.Err? {
        return prefix;
      }
      var expr := prefix.value;
      var nextPrecedence := GetNextPrecedence();
      while precedence < nextPrecedence
        invariant Valid() && old(pos) < pos
        invariant nextPrecedence == NextPrecedence(Rest())
        invariant ParseLoopSpec(expr, Rest(), precedence, max) == spec
        decreases |tokens| - pos
      {
        var infix := ParseInfix(expr, nextPrecedence);
        if infix.Err? {
          return infix;
        }
        expr := infix.value;
        nextPrecedence := GetNextPrecedence();
      }
      return Ok(expr);
    }

    method ParsePrefix() returns (r: Result<Expr, ErrorKind>)
      requires Valid()
      modifies this
      ensures Outcome(ParsePrefixSpec(old(Rest()), max), r)
      decreases |tokens| - pos, 1
    {
      var next := NextToken();
      if next.Err? {
        return Err(next.kind);
      }
      var token := next.value;
      match token
      case Ident(name) => return Ok(Identifier(name));
      case Operator(Mul) => return Ok(Wildcard);
      case Str(text) => return Ok(StringValue(text));
      case Bool(b) => return Ok(BoolValue(b));
      case Number(n) =>
        if n > max {
          return Err(IntegerOutOfRange(n));
        }
        return Ok(NumberValue(n));
      case Operator(Plus) | Operator(Minus) =>
        var sign := if token.op == Plus then Positive else Negative;
        var expr := ParseExpr(UNARY_ARITHMETIC_OPERATOR_PRECEDENCE);
        if expr.Err? {
          return expr;
        }
        return Ok(Unary(sign, expr.value));
      case LeftParen =>
        var expr := ParseExpression();
        if expr.Err? {
          return expr;
        }
        var close := NextToken();
        if close.Err? {
          return Err(close.kind);
        }
        if close.value != RightParen {
          return Err(Expected(close.value));
        }
        return Ok(Nested(expr.value));
      case _ => return Err(ExpectedOneOf(token));
    }

    method ParseInfix(left: Expr, precedence: nat) returns (r: Result<Expr, ErrorKind>)
      requires Valid() && precedence == NextPrecedence(Rest()) > 0
      modifies this
      ensures match ParseExprSpec(old(Rest())[1..], precedence, max)
        case Ok(Parsed(e, rest)) => Valid() && r == Ok(Binary(left, old(Rest())[0].op, e)) && Rest() == rest
        case Err(k) => Valid() && r == Err(k)
      decreases |tokens| - pos, 0
    {
      var next := NextToken();
      var operator := next.value.op;
      var right := ParseExpr(precedence);
      if right.Err? {
        return right;
      }
      return Ok(Binary(left, operator, right.value));
    }
  }
}
