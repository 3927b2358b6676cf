/** A sentence has only one reading by precedence: a recursive parser, written from the grammar alone,
    finds it from the tokens. */
module ExpressionReading {
  import opened Expression
  import opened ExpressionTree

  datatype Reading = NoReading | Reading(e: Expr, rest: seq<Token>)

  /** A literal, a variable, or anything in brackets. */
  function Atom(ts: seq<Token>): (r: Reading)
    ensures r.Reading? ==> |r.rest| < |ts|
    decreases |ts|, 0
  {
    if ts == [] then NoReading
    else
      match ts[0]
      case Literal(n) => Reading(Number(n), ts[1..])
      case Identifier(name) => Reading(Variable(name), ts[1..])
      case OpenBracket =>
        var x := Climb(ts[1..], 1);
        if x.Reading? && x.rest != [] && x.rest[0] == CloseBracket then Reading(Bracketed(x.e), x.rest[1..])
            else NoReading
      case _ => NoReading
  }

  /** An atom with at most one prefix operator. */
  function Operand(ts: seq<Token>): (r: Reading)
    ensures r.Reading? ==> |r.rest| < |ts|
    decreases |ts|, 1
  {
    if ts != [] && ts[0].Operator? then
      var x := Atom(ts[1..]);
      if x.Reading? && IsArithmeticPrefix(ts[0].op) then Reading(Prefixed(ts[0].op, x.e), x.rest) else NoReading
    else Atom(ts)
  }

  /** An expression whose operators bind at least as tightly as p. */
  function Climb(ts: seq<Token>, p: nat): (r: Reading)
    ensures r.Reading? ==> |r.rest| < |ts|
    decreases |ts|, 2
  {
    var x := Operand(ts);
    if x.Reading? then Extend(x.e, x.rest, p) else NoReading
  }

  /** Takes operators that bind at least as tightly as p, left to right. */
  function Extend(left: Expr, ts: seq<Token>, p: nat): (r: Reading)
    ensures r.Reading? ==> |r.rest| <= |ts|
    decreases |ts|, 3
  {
    if ts != [] && ts[0].Operator? && InfixPrecedence(ts[0].op) >= p && InfixPrecedence(ts[0].op) > 0 then
      var x := Climb(ts[1..], InfixPrecedence(ts[0].op) + 1);
      if x.Reading? then Extend(Infixed(ts[0].op, left, x.e), x.rest, p) else NoReading
    else Reading(left, ts)
  }

  /** No operator follows that would bind tighter than the outermost one of e. */
  predicate Follows(u: seq<Token>, e: Expr) {
    u == [] || !u[0].Operator? || InfixPrecedence(u[0].op) <= Binding(e)
  }

  lemma {:induction false} OperandReads(e: Expr, u: seq<Token>)
    requires Sentence(e) && Respects(e) && !e.Infixed?
    ensures Operand(Tokens(e) + u) == Reading(e, u)
    ensures !e.Prefixed? ==> Atom(Tokens(e) + u) == Reading(e, u)
    decreases e, 0
  {
    hide Climb, InfixPrecedence;
    var ts := Tokens(e) + u;
    match e
    case Number(_) => assert ts[1..] == u;
    case Variable(_) => assert ts[1..] == u;
    case Bracketed(x) =>
      assert ts[1..] == Tokens(x) + ([CloseBracket] + u);
      ClimbReads(x, [CloseBracket] + u, 1);
      ExtendStops(x, [CloseBracket] + u, 1);
      assert ([CloseBracket] + u)[1..] == u;
    case Prefixed(op, x) =>
      assert ts[1..] == Tokens(x) + u;
      OperandReads(x, u);
      hide Atom;
  }

  lemma ExtendStops(e: Expr, u: seq<Token>, p: nat)
    requires u == [] || !u[0].Operator? || InfixPrecedence(u[0].op) < p
    ensures Extend(e, u, p) == Reading(e, u)
  { }

  lemma {:induction false} ClimbReads(e: Expr, u: seq<Token>, p: nat)
    requires Sentence(e) && Respects(e) && Follows(u, e) && 1 <= p && (e.Infixed? ==> p <= Binding(e))
    ensures Climb(Tokens(e) + u, p) == Extend(e, u, p)
    decreases e, 1
  {
    hide Operand, InfixPrecedence;
    if e.Infixed? {
      var op, l, r := e.op, e.l, e.r;
      var k := InfixPrecedence(op);
      var v := [Operator(op)] + (Tokens(r) + u);
      assert Tokens(e) + u == Tokens(l) + v;
      ClimbReads(l, v, p);
      ClimbReads(r, u, k + 1);
      ExtendStops(r, u, k + 1);
      assert v[1..] == Tokens(r) + u;
      hide Climb, Tokens;
      assert Extend(l, v, p) == Extend(e, u, p);
    } else {
      OperandReads(e, u);
    }
  }

  /** Two readings of the same tokens that respect precedence are the same. */
  lemma OneReading(a: Expr, b: Expr)
    requires Sentence(a) && Respects(a) && Sentence(b) && Respects(b) && Tokens(a) == Tokens(b)
    ensures a == b
  {
    hide Climb, Sentence, Respects;
    ReadsAll(a);
    ReadsAll(b);
  }

  /** The recursive parser finds it. */
  lemma ReadsAll(e: Expr)
    requires Sentence(e) && Respects(e)
    ensures Climb(Tokens(e), 1) == Reading(e, [])
  {
    hide Climb, Tokens;
    BindingBounds(e);
    ClimbReads(e, [], 1);
    ExtendStops(e, [], 1);
    assert Tokens(e) + [] == Tokens(e);
  }

  /** The evaluator computes the value of what the recursive parser reads, whatever reading the sentence
      was given in, exactly when that has a value and its leaks are harmless; else it traps. */
  lemma EvaluatesWhatIsRead(e: Expr, rest: seq<Token>, env: string -> int)
    requires Sentence(e) && Depth(e) < 1000 && EndsHere(rest)
    ensures var t, r := Climb(Tokens(e), 1), Parse(Tokens(e) + rest, env);
            && t.Reading? && t.rest == [] && Respects(t.e) && t.e == Normal(e)
            && (r.Done? <==> Eval(t.e, env).Meaning? && Harmless(t.e, env))
            && if r.Done? then r.value.value == Eval(t.e, env).value else r == Halted(Undefined)
  {
    hide Climb, Parse, Eval, Harmless;
    EvaluatesByPrecedence(e, rest, env);
    NormalRespects(e);
    ReadsAll(Normal(e));
  }
}
