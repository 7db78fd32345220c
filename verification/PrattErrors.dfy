/** Where the operator-precedence parser of experiments/parser_in_rust/parser.rs fails, and as what: it
    reports the end of the input exactly when the input can be completed, and anything else at the first
    token after which it cannot. */
module PrattErrors {
  import opened Expressions
  import opened PrattParser

  /** The three places a list of tokens is parsed from. */
  datatype Entry = AnExpr(p: nat) | APrefix | TheLoop(left: Expr, p: nat)

  function Parse(w: Entry, ts: seq<Token>, max: nat): Result<Parsed<Expr>, ErrorKind> {
    match w
    case AnExpr(p) => ParseExprSpec(ts, p, max)
    case APrefix => ParsePrefixSpec(ts, max)
    case TheLoop(left, p) => ParseLoopSpec(left, ts, p, max)
  }

  function Rank(w: Entry): nat {
    match w
    case AnExpr(_) => 2
    case APrefix => 1
    case TheLoop(_, _) => 0
  }

  // ---- More tokens ----

  /** What has been decided before the end stays decided, whatever follows. */
  lemma {:induction false} More(w: Entry, ts: seq<Token>, more: seq<Token>, max: nat)
    ensures var r, q := Parse(w, ts, max), Parse(w, ts + more, max);
      && (r.Ok? && r.value.rest != [] ==> q == Ok(Parsed(r.value.tree, r.value.rest + more)))
      && (r.Err? && r.kind != UnexpectedEof ==> q == r)
    decreases |ts|, Rank(w)
  {
    if ts == [] {
      return;
    }
    var all := ts + more;
    assert all[0] == ts[0] && all[1..] == ts[1..] + more;
    match w
    case AnExpr(p) =>
      More(APrefix, ts, more, max);
      var pr := ParsePrefixSpec(ts, max);
      if pr.Ok? {
        More(TheLoop(pr.value.tree, p), pr.value.rest, more, max);
      }
    case APrefix =>
      if ts[0] == Operator(Plus) || ts[0] == Operator(Minus) {
        More(AnExpr(UNARY_ARITHMETIC_OPERATOR_PRECEDENCE), ts[1..], more, max);
      } else if ts[0] == LeftParen {
        More(AnExpr(0), ts[1..], more, max);
        var r := ParseExprSpec(ts[1..], 0, max);
        assert r.Ok? && r.value.rest != [] ==> (r.value.rest + more)[1..] == r.value.rest[1..] + more;
      }
    case TheLoop(left, p) =>
      if p < NextPrecedence(ts) {
        var q := NextPrecedence(ts);
        More(AnExpr(q), ts[1..], more, max);
        var r := ParseExprSpec(ts[1..], q, max);
        if r.Ok? {
          More(TheLoop(Binary(left, ts[0].op, r.value.tree), p), r.value.rest, more, max);
        }
      }
  }

  // ---- Completing an input ----

  /** An expression that ends the input still reads as one in front of a closing parenthesis. */
  lemma Closed(ts: seq<Token>, e: Expr, max: nat)
    requires ParseExprSpec(ts, 0, max) == Ok(Parsed(e, []))
    ensures ParseExprSpec(ts + [RightParen], 0, max) == Ok(Parsed(e, [RightParen]))
  {
    ParsedExpr(ts, 0, max);
    assert ts == Flatten(e);
    FlattenThenParse(e, [RightParen], max);
  }

  /** Where the end comes too early, some tokens complete the input. */
  lemma {:induction false} Completed(w: Entry, ts: seq<Token>, max: nat) returns (more: seq<Token>)
    requires Parse(w, ts, max) == Err(UnexpectedEof)
    ensures var q := Parse(w, ts + more, max); q.Ok? && q.value.rest == []
    decreases |ts|, Rank(w)
  {
    match w
    case AnExpr(p) =>
      var pr := ParsePrefixSpec(ts, max);
      if pr.Err? {
        more := Completed(APrefix, ts, max);
        var e := ParsePrefixSpec(ts + more, max).value.tree;
        AfterPrefix(ts + more, p, max, e, []);
        LoopStops(e, [], p, max);
      } else {
        more := Completed(TheLoop(pr.value.tree, p), pr.value.rest, max);
        More(APrefix, ts, more, max);
      }
    case APrefix =>
      if ts == [] {
        more := [Number(0)];
        assert ts + more == [Number(0)];
      } else if ts[0] == LeftParen {
        more := CompletedGroup(ts, max);
      } else {
        more := Completed(AnExpr(UNARY_ARITHMETIC_OPERATOR_PRECEDENCE), ts[1..], max);
        assert (ts + more)[1..] == ts[1..] + more && (ts + more)[0] == ts[0];
      }
    case TheLoop(left, p) =>
      var q := NextPrecedence(ts);
      var r := ParseExprSpec(ts[1..], q, max);
      if r.Err? {
        more := Completed(AnExpr(q), ts[1..], max);
        assert (ts + more)[1..] == ts[1..] + more && (ts + more)[0] == ts[0];
        var e := ParseExprSpec(ts[1..] + more, q, max).value.tree;
        LoopTurns(left, ts[0].op, e, ts + more, [], p, max);
        LoopStops(Binary(left, ts[0].op, e), [], p, max);
      } else {
        more := Completed(TheLoop(Binary(left, ts[0].op, r.value.tree), p), r.value.rest, max);
        More(AnExpr(q), ts[1..], more, max);
        assert (ts + more)[1..] == ts[1..] + more && (ts + more)[0] == ts[0];
      }
  }

  lemma {:induction false} CompletedGroup(ts: seq<Token>, max: nat) returns (more: seq<Token>)
    requires ts != [] && ts[0] == LeftParen && ParsePrefixSpec(ts, max) == Err(UnexpectedEof)
    ensures var q := ParsePrefixSpec(ts + more, max); q.Ok? && q.value.rest == []
    decreases |ts|, 0
  {
    var r, inner := ParseExprSpec(ts[1..], 0, max), [];
    if r.Err? {
      inner := Completed(AnExpr(0), ts[1..], max);
    }
    var e := ParseExprSpec(ts[1..] + inner, 0, max).value.tree;
    assert ts[1..] + [] == ts[1..];
    Closed(ts[1..] + inner, e, max);
    more := inner + [RightParen];
    assert (ts + more)[1..] == ts[1..] + inner + [RightParen];
  }

  /** Some input that begins like this is an expression and what follows it. */
  ghost predicate Hopeful(ts: seq<Token>, max: nat) {
    exists more :: ParseExprSpec(ts + more, 0, max).Ok?
  }

  /** The end is reported exactly where the input is no expression yet but can be completed to one; and
      after any other error nothing completes it. */
  lemma EofExactly(ts: seq<Token>, max: nat)
    ensures var r := ParseExprSpec(ts, 0, max);
      && (r == Err(UnexpectedEof) <==> r.Err? && Hopeful(ts, max))
      && (r.Ok? ==> Hopeful(ts, max))
      && (r.Err? && r.kind != UnexpectedEof ==> forall more :: ParseExprSpec(ts + more, 0, max) == r)
  {
    assert ts + [] == ts;
    var r := ParseExprSpec(ts, 0, max);
    if r == Err(UnexpectedEof) {
      var more := Completed(AnExpr(0), ts, max);
      assert ParseExprSpec(ts + more, 0, max).Ok?;
    }
    forall more | r.Err? && r.kind != UnexpectedEof ensures ParseExprSpec(ts + more, 0, max) == r {
      More(AnExpr(0), ts, more, max);
    }
  }

  // ---- Where the error is ----

  /** Nothing is wrong before the end. */
  predicate Open(r: Result<Parsed<Expr>, ErrorKind>) {
    if r.Ok? then r.value.rest == [] else r.kind == UnexpectedEof
  }

  /** Token `n` is the first one wrong, and the error says why: it is no token, or a number too large, or
      stands where only a closing parenthesis could, or where an operand should begin. */
  predicate Fault(w: Entry, ts: seq<Token>, n: nat, k: ErrorKind, max: nat) {
    && n < |ts| && Open(Parse(w, ts[..n], max)) && Parse(w, ts[..n + 1], max) == Err(k)
    && var closed := Parse(w, ts[..n] + [RightParen], max);
      match k
      case UnexpectedEof => false
      case TokenizerError => ts[n] == Bad
      case IntegerOutOfRange(v) => ts[n] == Number(v) && v > max
      case Expected(found) => found == ts[n] && found != RightParen && found != Bad && Open(closed)
      case ExpectedOneOf(found) => found == ts[n] && found != Bad && closed == Err(ExpectedOneOf(RightParen))
  }

  /** What is wrong inside is wrong outside. */
  predicate Carried(r: Result<Parsed<Expr>, ErrorKind>, q: Result<Parsed<Expr>, ErrorKind>) {
    (Open(r) ==> Open(q)) && (r.Err? ==> q == r)
  }

  lemma FaultShifted(v: Entry, w: Entry, before: seq<Token>, ts: seq<Token>, n: nat, k: ErrorKind, max: nat)
    requires Fault(v, ts, n, k, max)
    requires Carried(Parse(v, ts[..n], max), Parse(w, before + ts[..n], max))
    requires Carried(Parse(v, ts[..n + 1], max), Parse(w, before + ts[..n + 1], max))
    requires Carried(Parse(v, ts[..n] + [RightParen], max), Parse(w, before + (ts[..n] + [RightParen]), max))
    ensures Fault(w, before + ts, |before| + n, k, max)
  {
    hide Parse;
    assert (before + ts)[..|before| + n] == before + ts[..n];
    assert (before + ts)[..|before| + n + 1] == before + ts[..n + 1];
    assert before + ts[..n] + [RightParen] == before + (ts[..n] + [RightParen]);
    assert (before + ts)[|before| + n] == ts[n];
  }

  /** A sign or a parenthesis in front. */
  lemma CarriedInner(t: Token, ts: seq<Token>, max: nat)
    requires t == Operator(Plus) || t == Operator(Minus) || t == LeftParen
    ensures var p := if t == LeftParen then 0 else UNARY_ARITHMETIC_OPERATOR_PRECEDENCE;
      Carried(ParseExprSpec(ts, p, max), ParsePrefixSpec([t] + ts, max))
  {
    assert ([t] + ts)[1..] == ts;
  }

  /** A tree and an operator in front. */
  lemma CarriedOperand(left: Expr, op: Op, ts: seq<Token>, p: nat, max: nat)
    requires p < Precedence(op)
    ensures Carried(ParseExprSpec(ts, Precedence(op), max), ParseLoopSpec(left, [Operator(op)] + ts, p, max))
  {
    assert ([Operator(op)] + ts)[1..] == ts;
  }

  lemma CarriedPrefix(ts: seq<Token>, p: nat, max: nat)
    ensures Carried(ParsePrefixSpec(ts, max), ParseExprSpec(ts, p, max))
  {
  }

  /** A tree in front that the loop goes on with. */
  lemma CarriedLoop(e: Expr, ts: seq<Token>, p: nat, max: nat)
    requires WellFormed(e) && Fits(e, max) && Level(e) == 100 && p < 100
    ensures ParseExprSpec(Flatten(e) + ts, p, max) == ParseLoopSpec(e, ts, p, max)
  {
    assert NextPrecedence(ts) <= Level(e);
    ParseFlattened(e, ts, p, max);
  }

  /** An operator and its right operand in front. */
  lemma CarriedTurn(left: Expr, op: Op, right: Expr, ts: seq<Token>, p: nat, max: nat)
    requires p < Precedence(op) && NextPrecedence(ts) <= Precedence(op)
    requires WellFormed(right) && Fits(right, max) && Level(right) > Precedence(op)
    ensures ParseLoopSpec(left, [Operator(op)] + Flatten(right) + ts, p, max)
      == ParseLoopSpec(Binary(left, op, right), ts, p, max)
  {
    var all := [Operator(op)] + Flatten(right) + ts;
    assert all[1..] == Flatten(right) + ts;
    ParseFlattened(right, ts, Precedence(op), max);
    LoopStops(right, ts, Precedence(op), max);
    LoopTurns(left, op, right, all, ts, p, max);
  }

  lemma CutPrecedence(ts: seq<Token>, n: nat, p: nat)
    requires n < |ts| && NextPrecedence(ts) <= p
    ensures NextPrecedence(ts[..n]) <= p && NextPrecedence(ts[..n + 1]) <= p
    ensures NextPrecedence(ts[..n] + [RightParen]) <= p
  {
  }

  lemma {:induction false} ErrorAt(w: Entry, ts: seq<Token>, max: nat) returns (n: nat)
    requires var r := Parse(w, ts, max); r.Err? && r.kind != UnexpectedEof
    requires w.APrefix? || w.p < 100
    ensures Fault(w, ts, n, Parse(w, ts, max).kind, max)
    decreases |ts|, Rank(w)
  {
    match w
    case AnExpr(p) => n := ExprErrorAt(ts, p, max);
    case APrefix => n := PrefixErrorAt(ts, max);
    case TheLoop(left, p) => n := LoopErrorAt(left, ts, p, max);
  }

  lemma {:induction false} ExprErrorAt(ts: seq<Token>, p: nat, max: nat) returns (n: nat)
    requires var r := ParseExprSpec(ts, p, max); r.Err? && r.kind != UnexpectedEof
    requires p < 100
    ensures Fault(AnExpr(p), ts, n, ParseExprSpec(ts, p, max).kind, max)
    decreases |ts|, 2, 0
  {
    hide Fault, Carried, Flatten, ParseExprSpec, ParsePrefixSpec, ParseLoopSpec;
    var k, pr := ParseExprSpec(ts, p, max).kind, ParsePrefixSpec(ts, max);
    ExprIs(ts, p, max);
    if pr.Err? {
      n := ErrorAt(APrefix, ts, max);
      FaultBelow(APrefix, ts, n, k, max);
      CarriedPrefix(ts[..n], p, max);
      CarriedPrefix(ts[..n + 1], p, max);
      CarriedPrefix(ts[..n] + [RightParen], p, max);
      assert [] + ts == ts && [] + ts[..n] == ts[..n] && [] + ts[..n + 1] == ts[..n + 1]
        && [] + (ts[..n] + [RightParen]) == ts[..n] + [RightParen];
      FaultShifted(APrefix, AnExpr(p), [], ts, n, k, max);
    } else {
      var e, rest := pr.value.tree, pr.value.rest;
      ParsedPrefix(ts, max);
      n := ErrorAt(TheLoop(e, p), rest, max);
      FaultBelow(TheLoop(e, p), rest, n, k, max);
      CarriedLoop(e, rest[..n], p, max);
      CarriedLoop(e, rest[..n + 1], p, max);
      CarriedLoop(e, rest[..n] + [RightParen], p, max);
      SameCarried(ParseLoopSpec(e, rest[..n], p, max));
      SameCarried(ParseLoopSpec(e, rest[..n + 1], p, max));
      SameCarried(ParseLoopSpec(e, rest[..n] + [RightParen], p, max));
      FaultShifted(TheLoop(e, p), AnExpr(p), Flatten(e), rest, n, k, max);
      n := |Flatten(e)| + n;
    }
  }

  lemma ExprIs(ts: seq<Token>, p: nat, max: nat)
    ensures var pr := ParsePrefixSpec(ts, max);
      ParseExprSpec(ts, p, max) == if pr.Err? then pr else ParseLoopSpec(pr.value.tree, pr.value.rest, p, max)
    ensures ParsePrefixSpec(ts, max).Ok? ==> |ParsePrefixSpec(ts, max).value.rest| < |ts|
  {
  }

  lemma LoopIs(left: Expr, ts: seq<Token>, p: nat, max: nat)
    requires ParseLoopSpec(left, ts, p, max).Err?
    ensures ts != [] && ts[0].Operator? && p < Precedence(ts[0].op)
    ensures var r := ParseExprSpec(ts[1..], Precedence(ts[0].op), max);
      && ParseLoopSpec(left, ts, p, max)
        == (if r.Err? then r else ParseLoopSpec(Binary(left, ts[0].op, r.value.tree), r.value.rest, p, max))
      && (r.Ok? ==> |r.value.rest| < |ts|)
  {
  }

  lemma SameCarried(r: Result<Parsed<Expr>, ErrorKind>)
    ensures Carried(r, r)
  {
  }

  lemma {:induction false} PrefixErrorAt(ts: seq<Token>, max: nat) returns (n: nat)
    requires var r := ParsePrefixSpec(ts, max); r.Err? && r.kind != UnexpectedEof
    ensures Fault(APrefix, ts, n, ParsePrefixSpec(ts, max).kind, max)
    decreases |ts|, 1, 0
  {
    if ts[0] == Operator(Plus) || ts[0] == Operator(Minus) || ts[0] == LeftParen {
      hide Fault, Carried, ParseExprSpec, ParseLoopSpec;
      var p := if ts[0] == LeftParen then 0 else UNARY_ARITHMETIC_OPERATOR_PRECEDENCE;
      var r := ParseExprSpec(ts[1..], p, max);
      if r.Err? {
        n := ErrorAt(AnExpr(p), ts[1..], max);
        FaultBelow(AnExpr(p), ts[1..], n, r.kind, max);
        CarriedInner(ts[0], ts[1..][..n], max);
        CarriedInner(ts[0], ts[1..][..n + 1], max);
        CarriedInner(ts[0], ts[1..][..n] + [RightParen], max);
        FaultShifted(AnExpr(p), APrefix, [ts[0]], ts[1..], n, r.kind, max);
        assert [ts[0]] + ts[1..] == ts;
        n := 1 + n;
      } else {
        n := GroupErrorAt(ts, r.value.tree, r.value.rest, max);
      }
    } else {
      n := OperandErrorAt(ts, max);
    }
  }

  /** No operand begins with the first token. */
  lemma OperandErrorAt(ts: seq<Token>, max: nat) returns (n: nat)
    requires var r := ParsePrefixSpec(ts, max); r.Err? && r.kind != UnexpectedEof
    requires ts[0] != Operator(Plus) && ts[0] != Operator(Minus) && ts[0] != LeftParen
    ensures Fault(APrefix, ts, n, ParsePrefixSpec(ts, max).kind, max)
  {
    hide ParseExprSpec, ParseLoopSpec;
    n := 0;
    assert ts[..0] == [] && ts[..1] == [ts[0]] && [] + [RightParen] == [RightParen];
  }

  lemma GroupIs(ts: seq<Token>, e: Expr, rest: seq<Token>, max: nat)
    requires ts != [] && ts[0] == LeftParen && ParseExprSpec(ts[1..], 0, max) == Ok(Parsed(e, rest))
    ensures ParsePrefixSpec(ts, max)
      == if rest == [] then Err(UnexpectedEof)
      else if rest[0] == Bad then Err(TokenizerError)
      else if rest[0] != RightParen then Err(Expected(rest[0]))
      else Ok(Parsed(Nested(e), rest[1..]))
  {
  }

  /** What a group gives when one token or none follows its expression. */
  lemma GroupCut(e: Expr, more: seq<Token>, max: nat)
    requires WellFormed(e) && Fits(e, max) && |more| <= 1 && NextPrecedence(more) == 0
    ensures ParsePrefixSpec([LeftParen] + Flatten(e) + more, max)
      == if more == [] then Err(UnexpectedEof)
      else if more[0] == Bad then Err(TokenizerError)
      else if more[0] != RightParen then Err(Expected(more[0]))
      else Ok(Parsed(Nested(e), []))
  {
    hide ParseExprSpec, ParsePrefixSpec, Flatten, WellFormed, Fits;
    var ts := [LeftParen] + Flatten(e) + more;
    assert ts[1..] == Flatten(e) + more;
    FlattenThenParse(e, more, max);
    GroupIs(ts, e, more, max);
  }

  /** The group is not closed. */
  lemma GroupErrorAt(ts: seq<Token>, e: Expr, rest: seq<Token>, max: nat) returns (n: nat)
    requires ts != [] && ts[0] == LeftParen && ParseExprSpec(ts[1..], 0, max) == Ok(Parsed(e, rest))
    requires rest != [] && rest[0] != RightParen
    ensures ParsePrefixSpec(ts, max).Err? && Fault(APrefix, ts, n, ParsePrefixSpec(ts, max).kind, max)
  {
    hide ParseExprSpec, ParsePrefixSpec, Flatten, WellFormed, Fits;
    ParsedExpr(ts[1..], 0, max);
    GroupIs(ts, e, rest, max);
    var before := [LeftParen] + Flatten(e);
    n := |before|;
    assert ts == before + rest;
    assert ts[..n] == before + [] && ts[..n + 1] == before + [rest[0]]
      && ts[..n] + [RightParen] == before + [RightParen];
    GroupCut(e, [], max);
    GroupCut(e, [rest[0]], max);
    GroupCut(e, [RightParen], max);
  }

  lemma {:induction false} LoopErrorAt(left: Expr, ts: seq<Token>, p: nat, max: nat) returns (n: nat)
    requires var r := ParseLoopSpec(left, ts, p, max); r.Err? && r.kind != UnexpectedEof
    requires p < 100
    ensures Fault(TheLoop(left, p), ts, n, ParseLoopSpec(left, ts, p, max).kind, max)
    decreases |ts|, 0, 0
  {
    hide Fault, Carried, Flatten, ParseExprSpec, ParsePrefixSpec, ParseLoopSpec;
    LoopIs(left, ts, p, max);
    var k, op := ParseLoopSpec(left, ts, p, max).kind, ts[0].op;
    var r := ParseExprSpec(ts[1..], Precedence(op), max);
    assert [Operator(op)] + ts[1..] == ts;
    if r.Err? {
      n := ErrorAt(AnExpr(Precedence(op)), ts[1..], max);
      FaultBelow(AnExpr(Precedence(op)), ts[1..], n, k, max);
      CarriedOperand(left, op, ts[1..][..n], p, max);
      CarriedOperand(left, op, ts[1..][..n + 1], p, max);
      CarriedOperand(left, op, ts[1..][..n] + [RightParen], p, max);
      FaultShifted(AnExpr(Precedence(op)), TheLoop(left, p), [Operator(op)], ts[1..], n, k, max);
      n := 1 + n;
    } else {
      var e, rest := r.value.tree, r.value.rest;
      ParsedExpr(ts[1..], Precedence(op), max);
      var next := Binary(left, op, e);
      n := ErrorAt(TheLoop(next, p), rest, max);
      FaultBelow(TheLoop(next, p), rest, n, k, max);
      CutPrecedence(rest, n, Precedence(op));
      CarriedTurn(left, op, e, rest[..n], p, max);
      CarriedTurn(left, op, e, rest[..n + 1], p, max);
      CarriedTurn(left, op, e, rest[..n] + [RightParen], p, max);
      SameCarried(ParseLoopSpec(next, rest[..n], p, max));
      SameCarried(ParseLoopSpec(next, rest[..n + 1], p, max));
      SameCarried(ParseLoopSpec(next, rest[..n] + [RightParen], p, max));
      var before := [Operator(op)] + Flatten(e);
      FaultShifted(TheLoop(next, p), TheLoop(left, p), before, rest, n, k, max);
      assert before + rest == ts;
      n := |before| + n;
    }
  }

  lemma FaultBelow(w: Entry, ts: seq<Token>, n: nat, k: ErrorKind, max: nat)
    requires Fault(w, ts, n, k, max)
    ensures n < |ts|
  {
  }

  /** Every error but the end of the input is at the first token after which no input is an expression,
      and says what is wrong there. */
  lemma ErrorExactly(ts: seq<Token>, max: nat) returns (n: nat)
    requires var r := ParseExprSpec(ts, 0, max); r.Err? && r.kind != UnexpectedEof
    ensures Fault(AnExpr(0), ts, n, ParseExprSpec(ts, 0, max).kind, max)
    ensures Hopeful(ts[..n], max) && !Hopeful(ts[..n + 1], max)
  {
    n := ErrorAt(AnExpr(0), ts, max);
    EofExactly(ts[..n], max);
    EofExactly(ts[..n + 1], max);
  }
}
