/** The expression parser of src/parser/parser.cpp, and how it agrees with the one of the
    experiments: same trees with the grouping erased, no sign operators, smaller numbers. */
module CppParser {
  import opened Expressions
  import opened PrattParser

  /** What the C++ parser throws. */
  datatype Thrown = UnexpectedToken | InvalidExpression | NumberTooLarge

  /** The tokens both lexers produce: the C++ one has no `!=`, and reads TRUE and FALSE as
      identifiers. */
  predicate Shared(ts: seq<Token>) {
    forall i :: 0 <= i < |ts| ==> !ts[i].Bool? && ts[i] != Bad && ts[i] != Operator(Neq)
  }

  /** The tree without its groupings. */
  function Erase(e: Expr): Expr {
    match e
    case Unary(s, x) => Unary(s, Erase(x))
    case Binary(l, op, r) => Binary(Erase(l), op, Erase(r))
    case Nested(x) => Erase(x)
    case _ => e
  }

  /** No sign operator anywhere. */
  predicate Plain(e: Expr) {
    match e
    case Unary(_, _) => false
    case Binary(l, _, r) => Plain(l) && Plain(r)
    case Nested(x) => Plain(x)
    case _ => true
  }

  function CppExprSpec(ts: seq<Token>, p: nat, max: nat): (r: Result<Parsed<Expr>, Thrown>)
    ensures r.Ok? ==> |r.value.rest| < |ts|
    decreases |ts|, 2
  {
    match CppPrimarySpec(ts, max)
    case Ok(Parsed(e, rest)) => CppLoopSpec(e, rest, p, max)
    case Err(k) => Err(k)
  }

  function CppPrimarySpec(ts: seq<Token>, max: nat): (r: Result<Parsed<Expr>, Thrown>)
    ensures r.Ok? ==> |r.value.rest| < |ts|
    decreases |ts|, 1
  {
    if ts == [] then Err(InvalidExpression) else
    match ts[0]
    case Ident(name) => Ok(Parsed(Identifier(name), ts[1..]))
    case Number(n) => if n <= max then Ok(Parsed(NumberValue(n), ts[1..])) else Err(NumberTooLarge)
    case Str(text) => Ok(Parsed(StringValue(text), ts[1..]))
    case LeftParen =>
      (match CppExprSpec(ts[1..], 0, max)
       case Ok(Parsed(e, rest)) => if rest != [] && rest[0] == RightParen then Ok(Parsed(e, rest[1..]))
         else Err(UnexpectedToken)
       case Err(k) => Err(k))
    case Operator(Mul) => Ok(Parsed(Wildcard, ts[1..]))
    case _ => Err(InvalidExpression)
  }

  function CppLoopSpec(left: Expr, ts: seq<Token>, p: nat, max: nat): (r: Result<Parsed<Expr>, Thrown>)
    ensures r.Ok? ==> |r.value.rest| <= |ts|
    decreases |ts|, 0
  {
    if p < NextPrecedence(ts) then
      match CppExprSpec(ts[1..], NextPrecedence(ts), max)
      case Ok(Parsed(e, rest)) => CppLoopSpec(Binary(left, ts[0].op, e), rest, p, max)
      case Err(k) => Err(k)
    else Ok(Parsed(left, ts))
  }

  // ---- Agreement with the parser of the experiments ----

  /** The C++ parser succeeds exactly where the other one does with a tree it can express, and then
      returns that tree without groupings and leaves the same tokens. */
  predicate Agree(r: Result<Parsed<Expr>, ErrorKind>, c: Result<Parsed<Expr>, Thrown>, max: nat) {
    if r.Ok? && Plain(r.value.tree) && Fits(r.value.tree, max)
    then c == Ok(Parsed(Erase(r.value.tree), r.value.rest))
    else c.Err?
  }

  /** What the loop starts from is part of what it returns. */
  lemma {:induction false} LoopKeeps(left: Expr, ts: seq<Token>, p: nat, m: nat, max: nat)
    ensures var r := ParseLoopSpec(left, ts, p, m);
      r.Ok? && Plain(r.value.tree) && Fits(r.value.tree, max) ==> Plain(left) && Fits(left, max)
    decreases |ts|
  {
    if p < NextPrecedence(ts) {
      var r := ParseExprSpec(ts[1..], NextPrecedence(ts), m);
      if r.Ok? {
        LoopKeeps(Binary(left, ts[0].op, r.value.tree), r.value.rest, p, m, max);
      }
    }
  }

  /** What a parser leaves is a tail of what it was given. */
  lemma RestShared(ts: seq<Token>, p: nat, m: nat)
    requires Shared(ts) && p < 100
    ensures var r := ParseExprSpec(ts, p, m); r.Ok? ==> Shared(r.value.rest)
  {
    ParsedExpr(ts, p, m);
    var r := ParseExprSpec(ts, p, m);
    if r.Ok? {
      var n := |Flatten(r.value.tree)|;
      forall i | 0 <= i < |r.value.rest| ensures r.value.rest[i] == ts[n + i] {
      }
    }
  }

  lemma {:induction false} AgreeExpr(ts: seq<Token>, p: nat, m: nat, max: nat)
    requires Shared(ts) && p < 100 && max <= m
    ensures Agree(ParseExprSpec(ts, p, m), CppExprSpec(ts, p, max), max)
    decreases |ts|, 2
  {
    hide ParsePrefixSpec, CppPrimarySpec, ParseLoopSpec, CppLoopSpec, Plain, Fits;
    AgreePrimary(ts, m, max);
    var r := ParsePrefixSpec(ts, m);
    if r.Ok? {
      PrefixRest(ts, m);
      LoopKeeps(r.value.tree, r.value.rest, p, m, max);
      if Plain(r.value.tree) && Fits(r.value.tree, max) {
        AgreeLoop(r.value.tree, r.value.rest, p, m, max);
      }
    }
  }

  lemma PrefixRest(ts: seq<Token>, m: nat)
    requires Shared(ts)
    ensures var r := ParsePrefixSpec(ts, m); r.Ok? ==> Shared(r.value.rest)
  {
    ParsedPrefix(ts, m);
    var r := ParsePrefixSpec(ts, m);
    if r.Ok? {
      var n := |Flatten(r.value.tree)|;
      forall i | 0 <= i < |r.value.rest| ensures r.value.rest[i] == ts[n + i] {
      }
    }
  }

  lemma {:induction false} AgreePrimary(ts: seq<Token>, m: nat, max: nat)
    requires Shared(ts) && max <= m
    ensures Agree(ParsePrefixSpec(ts, m), CppPrimarySpec(ts, max), max)
    decreases |ts|, 1
  {
    hide ParseExprSpec, CppExprSpec;
    if ts != [] && ts[0] == LeftParen {
      AgreeExpr(ts[1..], 0, m, max);
      var r := ParseExprSpec(ts[1..], 0, m);
      if r.Ok? && r.value.rest != [] {
        RestShared(ts[1..], 0, m);
      }
    }
  }

  lemma {:induction false} AgreeLoop(left: Expr, ts: seq<Token>, p: nat, m: nat, max: nat)
    requires Shared(ts) && Plain(left) && Fits(left, max) && max <= m
    ensures Agree(ParseLoopSpec(left, ts, p, m), CppLoopSpec(Erase(left), ts, p, max), max)
    decreases |ts|, 0
  {
    hide ParseExprSpec, CppExprSpec;
    if p < NextPrecedence(ts) {
      var q := NextPrecedence(ts);
      AgreeExpr(ts[1..], q, m, max);
      var r := ParseExprSpec(ts[1..], q, m);
      if r.Ok? {
        RestShared(ts[1..], q, m);
        var more := Binary(left, ts[0].op, r.value.tree);
        LoopKeeps(more, r.value.rest, p, m, max);
        if Plain(r.value.tree) && Fits(r.value.tree, max) {
          AgreeLoop(more, r.value.rest, p, m, max);
        }
      }
    }
  }

  /** Over the shared tokens the two parsers agree; both sides of the branch are reached. */
  lemma ParsersAgree(ts: seq<Token>, m: nat, max: nat)
    requires Shared(ts) && max <= m
    ensures Agree(ParseExprSpec(ts, 0, m), CppExprSpec(ts, 0, max), max)
  {
    AgreeExpr(ts, 0, m, max);
  }

  // ---- Every tree can be written down ----

  function Group(e: Expr, level: nat): (g: Expr) {
    if Level(e) >= level then e else Nested(e)
  }

  /** The tree with a grouping wherever an operand binds more loosely than it has to. */
  function Grouped(e: Expr): Expr {
    match e
    case Binary(l, op, r) =>
      Binary(Group(Grouped(l), Precedence(op)), op, Group(Grouped(r), Precedence(op) + 1))
    case _ => e
  }

  predicate Ungrouped(e: Expr) {
    match e
    case Binary(l, _, r) => Ungrouped(l) && Ungrouped(r)
    case Unary(_, _) | Nested(_) | BoolValue(_) => false
    case _ => true
  }

  lemma {:induction false} GroupedErases(e: Expr, max: nat)
    requires Ungrouped(e) && Fits(e, max)
    ensures WellFormed(Grouped(e)) && Fits(Grouped(e), max) && Plain(Grouped(e)) && Erase(Grouped(e)) == e
    ensures Level(Grouped(e)) == Level(e)
  {
    match e
    case Binary(l, _, r) =>
      GroupedErases(l, max);
      GroupedErases(r, max);
    case _ =>
  }

  predicate NoNeq(e: Expr) {
    match e
    case Binary(l, op, r) => op != Neq && NoNeq(l) && NoNeq(r)
    case Unary(_, x) => NoNeq(x)
    case Nested(x) => NoNeq(x)
    case _ => true
  }

  lemma {:induction false} GroupedShared(e: Expr)
    requires Ungrouped(e) && NoNeq(e)
    ensures Shared(Flatten(Grouped(e)))
  {
    match e
    case Binary(l, _, r) =>
      GroupedShared(l);
      GroupedShared(r);
    case _ =>
  }

  /** The C++ parser reads back every tree it can build from the tokens of its grouped form. */
  lemma GroupedParses(e: Expr, rest: seq<Token>, max: nat)
    requires Ungrouped(e) && NoNeq(e) && Fits(e, max) && Shared(rest) && NextPrecedence(rest) == 0
    ensures CppExprSpec(Flatten(Grouped(e)) + rest, 0, max) == Ok(Parsed(e, rest))
  {
    GroupedErases(e, max);
    GroupedShared(e);
    FlattenThenParse(Grouped(e), rest, max);
    ParsersAgree(Flatten(Grouped(e)) + rest, max, max);
  }

  // ---- The parser ----

  /** What a primary expression is, by its first token. */
  lemma PrimaryOf(ts: seq<Token>, max: nat)
    ensures ts == [] ==> CppPrimarySpec(ts, max) == Err(InvalidExpression)
    ensures ts != [] && ts[0].Ident? ==> CppPrimarySpec(ts, max) == Ok(Parsed(Identifier(ts[0].name), ts[1..]))
    ensures ts != [] && ts[0].Str? ==> CppPrimarySpec(ts, max) == Ok(Parsed(StringValue(ts[0].text), ts[1..]))
    ensures ts != [] && ts[0].Number? ==>
      CppPrimarySpec(ts, max)
        == if ts[0].n <= max then Ok(Parsed(NumberValue(ts[0].n), ts[1..])) else Err(NumberTooLarge)
    ensures ts != [] && ts[0] == Operator(Mul) ==> CppPrimarySpec(ts, max) == Ok(Parsed(Wildcard, ts[1..]))
    ensures ts != [] && ts[0] == LeftParen ==> var r := CppExprSpec(ts[1..], 0, max);
      CppPrimarySpec(ts, max) ==
      if r.Err? then r
      else if r.value.rest != [] && r.value.rest[0] == RightParen then Ok(Parsed(r.value.tree, r.value.rest[1..]))
      else Err(UnexpectedToken)
    ensures ts == [] || ts[0].Bool? || ts[0].RightParen? || ts[0].Other? || ts[0].Bad? ==>
      CppPrimarySpec(ts, max) == Err(InvalidExpression)
    ensures ts != [] && ts[0].Operator? && ts[0].op != Mul ==> CppPrimarySpec(ts, max) == Err(InvalidExpression)
  {
    hide CppExprSpec;
  }

  /** The token the parser looks at. */
  datatype Current = End | Is(token: Token)

  /** What both lexers read as one operand. */
  predicate SharedAtom(a: Expr, max: nat) {
    Atom(a) && !a.BoolValue? && Fits(a, max)
  }

  lemma PlainAtom(a: Expr, max: nat)
    requires SharedAtom(a, max)
    ensures Plain(a) && Erase(a) == a && Shared([AtomToken(a)])
  {
  }

  lemma PlainTwo(a: Expr, op: Op, b: Expr, max: nat)
    requires Plain(a) && Plain(b) && Fits(a, max) && Fits(b, max)
    ensures var e := Binary(a, op, b); Plain(e) && Fits(e, max) && Erase(e) == Binary(Erase(a), op, Erase(b))
    ensures Plain(Nested(b)) && Fits(Nested(b), max) && Erase(Nested(b)) == Erase(b)
  {
  }

  lemma SharedMore(ts: seq<Token>, rest: seq<Token>)
    requires Shared(ts) && Shared(rest)
    ensures Shared(ts + rest)
  {
  }

  /** The C++ parser reads `a op1 b op2 c` the same way. */
  lemma CppThreeOperands(a: Expr, op1: Op, b: Expr, op2: Op, c: Expr, rest: seq<Token>, max: nat)
    requires SharedAtom(a, max) && SharedAtom(b, max) && SharedAtom(c, max) && op1 != Neq && op2 != Neq
    requires Shared(rest) && (rest == [] || !rest[0].Operator?)
    ensures CppExprSpec([AtomToken(a), Operator(op1), AtomToken(b), Operator(op2), AtomToken(c)] + rest, 0, max)
      == Ok(Parsed(TreeOfThree(a, op1, b, op2, c), rest))
  {
    PlainAtom(a, max);
    PlainAtom(b, max);
    PlainAtom(c, max);
    hide ParseExprSpec, CppExprSpec, Level, WellFormed, Flatten, Erase, Plain, Fits, AtomToken, Tighter;
    var ts := [AtomToken(a), Operator(op1), AtomToken(b), Operator(op2), AtomToken(c)];
    PlainTwo(a, op1, b, max);
    PlainTwo(b, op2, c, max);
    PlainTwo(Binary(a, op1, b), op2, c, max);
    PlainTwo(a, op1, Binary(b, op2, c), max);
    assert [AtomToken(a)][0] == AtomToken(a) && [AtomToken(b)][0] == AtomToken(b) && [AtomToken(c)][0] == AtomToken(c);
    SharedMore(ts, rest);
    ThreeOperands(a, op1, b, op2, c, rest, max);
    ParsersAgree(ts + rest, max, max);
  }

  /** A group overrides all that, and leaves no trace in the tree. */
  lemma CppGroup(a: Expr, op1: Op, b: Expr, op2: Op, c: Expr, rest: seq<Token>, max: nat)
    requires SharedAtom(a, max) && SharedAtom(b, max) && SharedAtom(c, max) && op1 != Neq && op2 != Neq
    requires Shared(rest) && (rest == [] || !rest[0].Operator?)
    ensures var ts := [AtomToken(a), Operator(op1), LeftParen, AtomToken(b), Operator(op2), AtomToken(c), RightParen];
      CppExprSpec(ts + rest, 0, max) == Ok(Parsed(Binary(a, op1, Binary(b, op2, c)), rest))
  {
    PlainAtom(a, max);
    PlainAtom(b, max);
    PlainAtom(c, max);
    GroupedOperand(a, op1, b, op2, c);
    hide ParseExprSpec, CppExprSpec, Level, WellFormed, Flatten, Erase, Plain, Fits, AtomToken;
    var ts := [AtomToken(a), Operator(op1), LeftParen, AtomToken(b), Operator(op2), AtomToken(c), RightParen];
    var e := Binary(a, op1, Nested(Binary(b, op2, c)));
    PlainTwo(b, op2, c, max);
    PlainTwo(a, op1, Binary(b, op2, c), max);
    PlainTwo(a, op1, Nested(Binary(b, op2, c)), max);
    assert [AtomToken(a)][0] == AtomToken(a) && [AtomToken(b)][0] == AtomToken(b) && [AtomToken(c)][0] == AtomToken(c);
    SharedMore(ts, rest);
    FlattenThenParse(e, rest, max);
    ParsersAgree(ts + rest, max, max);
  }

  class Parser {
    const input: seq<Token>
    const max: nat
    var next: nat           // first token the lexer has not produced yet
    var current: Current

    constructor (input: seq<Token>, max: nat)
      requires Shared(input)
      ensures this.input == input && this.max == max && Valid() && Rest() == input
    {
      this.input, this.max := input, max;
      next := if input == [] then 0 else 1;
      current := if input == [] then End else Is(input[0]);
    }

    predicate Valid()
      reads this
    {
      && Shared(input)
      && next <= |input|
      && (match current
          case End => next == |input|
          case Is(t) => 0 < next && input[next - 1] == t)
    }

    ghost function Rest(): seq<Token>
      requires Valid()
      reads this
    {
      match current
      case End => []
      case Is(t) => input[next - 1..]
    }

    ghost predicate Outcome(spec: Result<Parsed<Expr>, Thrown>, r: Result<Expr, Thrown>)
      reads this
    {
      && Valid()
      && (match spec
          case Ok(Parsed(e, rest)) => r == Ok(e) && Rest() == rest
          case Err(k) => r == Err(k))
    }

    /** Consumes the current token, which the caller has just looked at. */
    method Advance()
      requires Valid() && current.Is?
      modifies this
      ensures Valid() && Rest() == old(Rest())[1..]
    {
      if next == |input| {
        current := End;
      } else {
        current := Is(input[next]);
        next := next + 1;
      }
    }

    /** Consumes `t` if that is the current token. */
    method Eat(t: Token) returns (thrown: bool)
      requires Valid()
      modifies this
      ensures Valid()
      ensures thrown <==> !(old(Rest()) != [] && old(Rest())[0] == t)
      ensures Rest() == if thrown then old(Rest()) else old(Rest())[1..]
    {
      if current != Is(t) {
        return true;
      }
      Advance();
      return false;
    }

    method CurrentPrecedence() returns (p: nat)
      requires Valid()
      ensures p == NextPrecedence(Rest())
      ensures forall op :: Rest() != [] && Rest()[0] == Operator(op) ==>
        && (op in PRODUCTS <==> p == 40) && (op in SUMS <==> p == 30) && (op in COMPARISONS <==> p == 20)
        && (op == And <==> p == 10) && (op == Or <==> p == 5)
    {
      p := 0;
      match current
      case Is(Operator(Or)) => p := 5;
      case Is(Operator(And)) => p := 10;
      case Is(Operator(Eq)) | Is(Operator(Lt)) | Is(Operator(Gt)) | Is(Operator(LtEq)) | Is(Operator(GtEq)) => p := 20;
      case Is(Operator(Plus)) | Is(Operator(Minus)) => p := 30;
      case Is(Operator(Mul)) | Is(Operator(Div)) => p := 40;
      case _ =>
    }

    method ParseExpr(minPrec: nat) returns (r: Result<Expr, Thrown>)
      requires Valid()
      modifies this
      ensures Outcome(CppExprSpec(old(Rest()), minPrec, max), r)
      decreases |Rest()|, 1
    {
      ghost var spec := CppExprSpec(Rest(), minPrec, max);
      var primary := ParsePrimary();
      if primary.Err? {
        return primary;
      }
      var left := primary.value;
      var p := CurrentPrecedence();
      while minPrec < p
        invariant Valid() && |Rest()| < |old(Rest())|
        invariant p == NextPrecedence(Rest())
        invariant CppLoopSpec(left, Rest(), minPrec, max) == spec
        decreases |Rest()|
      {
        var op := current.token.op;
        Advance();
        var right := ParseExpr(p);
        if right.Err? {
          return right;
        }
        left := Binary(left, op, right.value);
        p := CurrentPrecedence();
      }
      return Ok(left);
    }

    method ParsePrimary() returns (r: Result<Expr, Thrown>)
      requires Valid()
      modifies this
      ensures Outcome(CppPrimarySpec(old(Rest()), max), r)
      decreases |Rest()|, 0
    {
      hide CppExprSpec, CppLoopSpec, CppPrimarySpec, Shared;
      ghost var ts := Rest();
      PrimaryOf(ts, max);
      if current == End {
        return Err(InvalidExpression);
      }
      var token := current.token;
      if token.Ident? {
        Advance();
        return Ok(Identifier(token.name));
      }
      if token.Number? {
        if token.n > max {
          return Err(NumberTooLarge);
        }
        Advance();
        return Ok(NumberValue(token.n));
      }
      if token.Str? {
        Advance();
        return Ok(StringValue(token.text));
      }
      if token == LeftParen {
        Advance();
        var e := ParseExpr(0);
        if e.Err? {
          return e;
        }
        var thrown := Eat(RightParen);
        if thrown {
          return Err(UnexpectedToken);
        }
        return e;
      }
      if token == Operator(Mul) {
        Advance();
        return Ok(Wildcard);
      }
      return Err(InvalidExpression);
    }
  }
}
