/** What an expression means: its parse tree under the precedence table, evaluated with short circuit.
    The stack machine is shown to compute that value, and the operators it runs are compared with those
    the meaning asks for. */
module ExpressionTree {
  import opened Expression

  datatype Expr =
    | Number(n: int)
    | Variable(name: string)
    | Bracketed(e: Expr)
    | Prefixed(op: Op, e: Expr)
    | Infixed(op: Op, l: Expr, r: Expr)

  // ----- syntax -----

  function Tokens(e: Expr): seq<Token> {
    match e
    case Number(n) => [Literal(n)]
    case Variable(name) => [Identifier(name)]
    case Bracketed(x) => [OpenBracket] + Tokens(x) + [CloseBracket]
    case Prefixed(op, x) => [Operator(op)] + Tokens(x)
    case Infixed(op, l, r) => Tokens(l) + [Operator(op)] + Tokens(r)
  }

  /** Any reading of a sentence of the sublanguage, whether or not it respects precedence. */
  predicate Sentence(e: Expr) {
    match e
    case Number(_) | Variable(_) => true
    case Bracketed(x) => Sentence(x)
    case Prefixed(op, x) => IsArithmeticPrefix(op) && !x.Prefixed? && !x.Infixed? && Sentence(x)
    case Infixed(op, l, r) => InfixPrecedence(op) > 0 && Sentence(l) && Sentence(r)
  }

  /** How tightly the outermost operator binds. */
  function Binding(e: Expr): (p: nat)
    ensures p <= 15
  {
    match e
    case Infixed(op, _, _) => InfixPrecedence(op)
    case Prefixed(_, _) => 14
    case _ => 15
  }

  /** The one reading that precedence and left associativity choose. */
  predicate Respects(e: Expr) {
    match e
    case Number(_) | Variable(_) => true
    case Bracketed(x) => Respects(x)
    case Prefixed(op, x) => Respects(x)
    case Infixed(op, l, r) =>
      Respects(l) && Respects(r) && Binding(l) >= InfixPrecedence(op) && Binding(r) > InfixPrecedence(op)
  }

  function Max(a: nat, b: nat): nat { if a > b then a else b }

  function Depth(e: Expr): nat {
    match e
    case Number(_) | Variable(_) => 0
    case Bracketed(x) => 1 + Depth(x)
    case Prefixed(_, x) => Depth(x)
    case Infixed(_, l, r) => Max(Depth(l), Depth(r))
  }

  // ----- every sentence has a reading that respects precedence -----

  /** Adds an operator and an operand without operators at the right end of a tree. */
  function Attach(t: Expr, op: Op, x: Expr): Expr {
    match t
    case Infixed(o, l, r) => if InfixPrecedence(o) < InfixPrecedence(op) then Infixed(o, l, Attach(r, op, x))
        else Infixed(op, t, x)
    case _ => Infixed(op, t, x)
  }

  lemma Regroup(a: seq<Token>, b: seq<Token>, c: seq<Token>, d: seq<Token>)
    ensures a + (b + c + d) == a + b + c + d
  { }

  lemma InfixTokens(op: Op, l: Expr, r: Expr)
    ensures Tokens(Infixed(op, l, r)) == Tokens(l) + [Operator(op)] + Tokens(r)
  { }

  lemma {:induction false} AttachTokens(t: Expr, op: Op, x: Expr)
    ensures Tokens(Attach(t, op, x)) == Tokens(t) + [Operator(op)] + Tokens(x)
  {
    hide InfixPrecedence, Tokens;
    InfixTokens(op, t, x);
    if t.Infixed? && InfixPrecedence(t.op) < InfixPrecedence(op) {
      AttachTokens(t.r, op, x);
      InfixTokens(t.op, t.l, Attach(t.r, op, x));
      InfixTokens(t.op, t.l, t.r);
      Regroup(Tokens(t.l) + [Operator(t.op)], Tokens(t.r), [Operator(op)], Tokens(x));
    }
  }

  lemma {:induction false} AttachRespects(t: Expr, op: Op, x: Expr)
    requires Sentence(t) && Respects(t) && Sentence(x) && Respects(x) && !x.Infixed? && InfixPrecedence(op) > 0
    ensures Sentence(Attach(t, op, x)) && Respects(Attach(t, op, x))
    ensures Binding(Attach(t, op, x)) == InfixPrecedence(op) || Binding(Attach(t, op, x)) == Binding(t)
  {
    hide IsArithmeticPrefix, Tokens;
    InfixBelowPrefix(op);
    hide InfixPrecedence;
    if t.Infixed? && InfixPrecedence(t.op) < InfixPrecedence(op) {
      AttachRespects(t.r, op, x);
    }
  }

  lemma InfixBelowPrefix(op: Op)
    ensures InfixPrecedence(op) < 14 && (InfixPrecedence(op) > 0 ==> InfixPrecedence(op) >= 4)
  { }

  /** Joins a respecting tree and the tokens of any reading. */
  function Join(t: Expr, op: Op, e: Expr): Expr
    decreases e, 1
  {
    match e
    case Infixed(o, l, r) => Join(Join(t, op, l), o, r)
    case _ => Attach(t, op, Normal(e))
  }

  function Normal(e: Expr): Expr
    decreases e, 0
  {
    match e
    case Number(_) | Variable(_) => e
    case Bracketed(x) => Bracketed(Normal(x))
    case Prefixed(op, x) => Prefixed(op, Normal(x))
    case Infixed(op, l, r) => Join(Normal(l), op, r)
  }

  lemma {:induction false} JoinRespects(t: Expr, op: Op, e: Expr)
    requires Sentence(t) && Respects(t) && Sentence(e) && InfixPrecedence(op) > 0
    ensures Sentence(Join(t, op, e)) && Respects(Join(t, op, e))
    ensures Tokens(Join(t, op, e)) == Tokens(t) + [Operator(op)] + Tokens(e)
    decreases e, 1
  {
    hide Attach, IsArithmeticPrefix, InfixPrecedence;
    match e
    case Infixed(o, l, r) =>
      JoinRespects(t, op, l);
      JoinRespects(Join(t, op, l), o, r);
      assert Tokens(t) + [Operator(op)] + Tokens(l) + [Operator(o)] + Tokens(r)
             == Tokens(t) + [Operator(op)] + (Tokens(l) + [Operator(o)] + Tokens(r));
    case _ =>
      NormalRespects(e);
      AttachRespects(t, op, Normal(e));
      AttachTokens(t, op, Normal(e));
  }

  lemma {:induction false} NormalRespects(e: Expr)
    requires Sentence(e)
    ensures Sentence(Normal(e)) && Respects(Normal(e)) && Tokens(Normal(e)) == Tokens(e)
    ensures Normal(e).Infixed? == e.Infixed? && Normal(e).Prefixed? == e.Prefixed?
    decreases e, 0
  {
    match e
    case Number(_) =>
    case Variable(_) =>
    case Bracketed(x) => NormalRespects(x);
    case Prefixed(_, x) => NormalRespects(x);
    case Infixed(op, l, r) =>
      NormalRespects(l);
      JoinRespects(Normal(l), op, r);
      JoinIsInfixed(Normal(l), op, r);
  }

  lemma {:induction false} JoinIsInfixed(t: Expr, op: Op, e: Expr)
    ensures Join(t, op, e).Infixed?
    decreases e
  {
    match e
    case Infixed(o, l, r) => JoinIsInfixed(Join(t, op, l), o, r);
    case _ =>
  }

  // ----- meaning -----

  /** Fault: an operator was applied where the source language does not define it. */
  datatype Meaning = Fault | Meaning(value: int, ran: seq<Event>)

  /** An infix operator that is run. */
  function Applied(op: Op, a: Meaning, b: Meaning): Meaning
    requires a.Meaning? && b.Meaning?
  {
    if !Defined(op, a.value, b.value) then Fault
    else Meaning(InfixOperator(op, a.value, b.value), a.ran + b.ran + [InfixEvent(op, a.value, b.value)])
  }

  /** Evaluation with short circuit: the right side of a decided && or || contributes nothing. */
  function Eval(e: Expr, env: string -> int): Meaning {
    match e
    case Number(n) => Meaning(n, [])
    case Variable(name) => Meaning(env(name), [Read(name)])
    case Bracketed(x) => Eval(x, env)
    case Prefixed(op, x) =>
      var a := Eval(x, env);
      if a.Fault? then Fault else Meaning(PrefixOperator(op, a.value), a.ran + [Unary(op, a.value)])
    case Infixed(op, l, r) =>
      var a := Eval(l, env);
      if a.Fault? then Fault
      else if Decides(op, a.value) then Meaning(Truth(op == LogicalOr), a.ran + [Logical(op)])
      else
        var b := Eval(r, env);
        if b.Fault? then Fault else Applied(op, a, b)
  }

  // ----- what the machine does -----

  /** Dead: nothing is run. Waking: nothing is run up to and including the first token, an identifier,
      which turns ignoring off. */
  datatype Mode = Live | Dead | Waking

  predicate StartsWithVariable(e: Expr) {
    match e
    case Variable(_) => true
    case Infixed(_, l, _) => StartsWithVariable(l)
    case _ => false
  }

  function RightMode(op: Op, left: int, r: Expr, mode: Mode): Mode {
    if mode == Dead then Dead
    else if !Decides(op, left) then Live
    else if StartsWithVariable(r) then Waking else Dead
  }

  function Combined(op: Op, a: Meaning, b: Meaning, mode: Mode): Meaning
    requires a.Meaning? && b.Meaning?
  {
    if mode == Dead then Meaning(0, a.ran + b.ran) else Applied(op, a, b)
  }

  function Prefixing(op: Op, a: Meaning, mode: Mode): Meaning
    requires a.Meaning?
  {
    if mode == Live then Meaning(PrefixOperator(op, a.value), a.ran + [Unary(op, a.value)]) else Meaning(0, a.ran)
  }

  function Machined(e: Expr, env: string -> int, mode: Mode): Meaning {
    match e
    case Number(n) => Meaning(n, [])
    case Variable(name) => if mode == Live then Meaning(env(name), [Read(name)]) else Meaning(0, [])
    case Bracketed(x) => Machined(x, env, mode)
    case Prefixed(op, x) =>
      var a := Machined(x, env, mode);
      if a.Fault? then Fault else Prefixing(op, a, mode)
    case Infixed(op, l, r) =>
      var a := Machined(l, env, mode);
      if a.Fault? then Fault
      else
        var b := Machined(r, env, RightMode(op, a.value, r, mode));
        if b.Fault? then Fault else Combined(op, a, b, mode)
  }

  // ----- the machine computes Machined -----

  function Run(ps: Result<Parser>, tokens: seq<Token>, env: string -> int): Result<Parser>
    decreases tokens
  {
    if ps.Halted? || tokens == [] then ps else Run(Step(ps.value, tokens[0], env), tokens[1..], env)
  }

  lemma {:induction false} RunConcat(ps: Result<Parser>, a: seq<Token>, b: seq<Token>, env: string -> int)
    ensures Run(ps, a + b, env) == Run(Run(ps, a, env), b, env)
    decreases a
  {
    hide Step;
    if ps.Halted? {
    } else if a == [] {
      assert a + b == b;
    } else {
      assert (a + b)[1..] == a[1..] + b;
      RunConcat(Step(ps.value, a[0], env), a[1..], b, env);
    }
  }

  lemma RunOne(ps: Parser, tok: Token, env: string -> int)
    ensures Run(Done(ps), [tok], env) == Step(ps, tok, env)
  {
    hide Step;
    assert Run(Step(ps, tok, env), [], env) == Step(ps, tok, env);
  }

  /** The stack is empty or ends in an operator that waits for an operand binding at least as p. */
  predicate Waits(m: Machine, p: nat) {
    m.stack == [] || (m.stack[|m.stack| - 1].Pending? && m.stack[|m.stack| - 1].precedence < p)
  }

  /** The state in which the machine meets a subexpression of the given binding at bracket depth d. */
  predicate Ready(ps: Parser, e: Expr, d: nat, mode: Mode) {
    && ps.prefixState && ps.bracket == 20 * d && Waits(ps.machine, 20 * d + Binding(e)) && d + Depth(e) < 1000
    && ps.precedence < DEEP_PRECEDENCE
    && match mode
       case Live => ps.machine.ignore == DEEP_PRECEDENCE
       case Dead =>
         && ps.machine.ignore < 20 * d + Binding(e)
         && (StartsWithVariable(e) ==> ps.precedence > ps.machine.ignore)
       case Waking =>
         && ps.machine.ignore < 20 * d + Binding(e)
         && StartsWithVariable(e) && ps.precedence == ps.machine.ignore
  }

  /** The machine with the result of a subexpression on top. */
  function Pushed(m: Machine, r: Meaning, mode: Mode): Machine
    requires r.Meaning?
  {
    Machine(m.stack + [Value(r.value)], if mode == Waking then DEEP_PRECEDENCE else m.ignore, m.ran + r.ran)
  }

  /** After the tokens of a subexpression the stack may still hold some of its operators, but any
      collapse that a following token can ask for treats it as the result. */
  predicate Behaves(ps: Parser, ps': Parser, e: Expr, d: nat, r: Meaning, mode: Mode)
    requires r.Meaning?
  {
    && !ps'.prefixState && ps'.bracket == ps.bracket && ps'.precedence < DEEP_PRECEDENCE
    && forall p: nat | p <= 20 * d + Binding(e) :: Collapse(ps'.machine, p) == Collapse(Pushed(ps.machine, r, mode), p)
  }

  /** A subexpression that faults stops the machine at once, or at any collapse that can follow. */
  predicate Dies(ps: Parser, after: Result<Parser>, e: Expr, d: nat) {
    match after
    case Halted(reason) => reason == Undefined
    case Done(ps') =>
      && !ps'.prefixState && ps'.bracket == ps.bracket
      && forall p: nat | p <= 20 * d + Binding(e) :: Collapse(ps'.machine, p) == Halted(Undefined)
  }

  predicate Simulates(ps: Parser, e: Expr, d: nat, env: string -> int, mode: Mode) {
    var ps', r := Run(Done(ps), Tokens(e), env), Machined(e, env, mode);
    if r.Fault? then Dies(ps, ps', e, d) else ps'.Done? && Behaves(ps, ps'.value, e, d, r, mode)
  }

  /** A value on a waiting stack is not reduced further by a collapse above the waiting operator. */
  lemma Settled(m: Machine, v: int, p: nat)
    requires Waits(m, p)
    ensures Collapse(m.Push(Value(v)), p) == Done(m.Push(Value(v)))
  { }

  lemma SimulateLeaf(ps: Parser, e: Expr, d: nat, env: string -> int, mode: Mode)
    requires (e.Number? || e.Variable?) && Ready(ps, e, d, mode)
    ensures Simulates(ps, e, d, env, mode)
  {
    hide Collapse;
    RunOne(ps, Tokens(e)[0], env);
    var m := ps.machine;
    assert m.ran + [] == m.ran;
  }

  lemma BindingBounds(e: Expr)
    requires Sentence(e)
    ensures 4 <= Binding(e) <= 15
  { }

  lemma OpenBracketReady(ps: Parser, x: Expr, d: nat, env: string -> int, mode: Mode)
    requires Sentence(x) && Ready(ps, Bracketed(x), d, mode)
    ensures Step(ps, OpenBracket, env).Done? && Ready(Step(ps, OpenBracket, env).value, x, d + 1, mode)
  {
    hide Collapse;
    BindingBounds(x);
  }

  lemma CloseBracketBehaves(ps: Parser, ps': Parser, x: Expr, d: nat, r: Meaning, env: string -> int, mode: Mode)
    requires Ready(ps, Bracketed(x), d, mode) && r.Meaning?
    requires Behaves(Step(ps, OpenBracket, env).value, ps', x, d + 1, r, mode)
    ensures Step(ps', CloseBracket, env).Done?
    ensures Behaves(ps, Step(ps', CloseBracket, env).value, Bracketed(x), d, r, mode)
  {
    var ps1 := Step(ps, OpenBracket, env).value;
    var m := Pushed(ps.machine, r, mode);
    assert Pushed(ps1.machine, r, mode) == m;
    assert Collapse(ps'.machine, 20 * (d + 1)) == Collapse(m, 20 * (d + 1));
    Settled(m.(stack := ps.machine.stack), r.value, 20 * (d + 1));
    hide Collapse;
    assert Step(ps', CloseBracket, env) == Done(ps'.(machine := m, bracket := 20 * d));
  }

  lemma PrefixReady(ps: Parser, op: Op, x: Expr, d: nat, env: string -> int, mode: Mode)
    requires Sentence(Prefixed(op, x)) && Ready(ps, Prefixed(op, x), d, mode)
    ensures Step(ps, Operator(op), env) ==
            Done(ps.(machine := ps.machine.Push(Pending(op, OrderPrefix, 20 * d + 14)), precedence := 20 * d + 14))
    ensures Ready(Step(ps, Operator(op), env).value, x, d, mode)
  {
    assert Collapse(ps.machine, 20 * d + 14) == Done(ps.machine);
    hide Collapse;
  }

  lemma PrefixBehaves(ps: Parser, ps1: Parser, ps': Parser, op: Op, x: Expr, d: nat, a: Meaning, mode: Mode)
    requires Sentence(Prefixed(op, x)) && Ready(ps, Prefixed(op, x), d, mode) && a.Meaning?
    requires ps1 == ps.(machine := ps.machine.Push(Pending(op, OrderPrefix, 20 * d + 14)), precedence := 20 * d + 14)
    requires Behaves(ps1, ps', x, d, a, mode)
    ensures Behaves(ps, ps', Prefixed(op, x), d, Prefixing(op, a, mode), mode)
  {
    hide PrefixOperator;
    var r := Prefixing(op, a, mode);
    forall p: nat | p <= 20 * d + 14 ensures Collapse(ps'.machine, p) == Collapse(Pushed(ps.machine, r, mode), p) {
      var m := Pushed(ps1.machine, a, mode);
      assert Collapse(ps'.machine, p) == Collapse(m, p);
      assert Reduce(m) == Done(Pushed(ps.machine, r, mode)) by {
        hide Collapse;
        assert m.stack[..|m.stack| - 2] == ps.machine.stack;
        assert ps.machine.ran + a.ran + [Unary(op, a.value)] == ps.machine.ran + (a.ran + [Unary(op, a.value)]);
      }
      hide Reduce;
    }
  }

  lemma LeftReady(ps: Parser, e: Expr, d: nat, mode: Mode)
    requires e.Infixed? && Respects(e) && Ready(ps, e, d, mode)
    ensures Ready(ps, e.l, d, mode)
  {
    hide InfixPrecedence;
  }

  /** The parser after the left side and the operator. */
  function Shifted(ps: Parser, op: Op, d: nat, a: Meaning, mode: Mode): Parser
    requires a.Meaning?
  {
    var m, p := Pushed(ps.machine, a, mode), 20 * d + InfixPrecedence(op);
    var m' := if Decides(op, a.value) && m.ignore > p then m.(ignore := p) else m;
    Parser(m'.Push(Pending(op, OrderInfix, p)), 20 * d, p, true)
  }

  lemma ShiftInfix(ps: Parser, ps1: Parser, e: Expr, d: nat, a: Meaning, env: string -> int, mode: Mode)
    requires e.Infixed? && Sentence(e) && Respects(e) && Ready(ps, e, d, mode)
    requires a.Meaning? && Behaves(ps, ps1, e.l, d, a, mode)
    ensures Step(ps1, Operator(e.op), env) == Done(Shifted(ps, e.op, d, a, mode))
  {
    hide InfixPrecedence;
    var m, p := Pushed(ps.machine, a, mode), 20 * d + InfixPrecedence(e.op);
    assert Collapse(ps1.machine, p) == Collapse(m, p);
    Settled(m.(stack := ps.machine.stack), a.value, p);
    hide Collapse;
    assert Collapse(ps1.machine, p) == Done(m);
  }

  lemma RightReady(ps: Parser, e: Expr, d: nat, a: Meaning, mode: Mode)
    requires e.Infixed? && Sentence(e) && Respects(e) && Ready(ps, e, d, mode) && a.Meaning?
    ensures Ready(Shifted(ps, e.op, d, a, mode), e.r, d, RightMode(e.op, a.value, e.r, mode))
  {
    InfixBelowPrefix(e.op);
    hide InfixPrecedence, Decides;
  }

  lemma ReduceInfix(ps: Parser, e: Expr, d: nat, a: Meaning, b: Meaning, mode: Mode)
    requires e.Infixed? && Sentence(e) && Ready(ps, e, d, mode) && a.Meaning? && b.Meaning?
    ensures var m := Pushed(Shifted(ps, e.op, d, a, mode).machine, b, RightMode(e.op, a.value, e.r, mode));
            var r := Combined(e.op, a, b, mode);
            Reduce(m) == if r.Fault? then Halted(Undefined) else Done(Pushed(ps.machine, r, mode))
  {
    InfixBelowPrefix(e.op);
    hide InfixPrecedence, Decides, InfixOperator, InfixEvent, Defined;
    var s := ps.machine.stack;
    var m := Pushed(Shifted(ps, e.op, d, a, mode).machine, b, RightMode(e.op, a.value, e.r, mode));
    assert m.stack[..|m.stack| - 3] == s;
    var ev := InfixEvent(e.op, a.value, b.value);
    assert ps.machine.ran + a.ran + b.ran == ps.machine.ran + (a.ran + b.ran);
    assert ps.machine.ran + a.ran + b.ran + [ev] == ps.machine.ran + (a.ran + b.ran + [ev]);
  }

  lemma InfixBehaves(ps: Parser, ps': Parser, e: Expr, d: nat, a: Meaning, b: Meaning, mode: Mode)
    requires e.Infixed? && Sentence(e) && Respects(e) && Ready(ps, e, d, mode) && a.Meaning? && b.Meaning?
    requires Behaves(Shifted(ps, e.op, d, a, mode), ps', e.r, d, b, RightMode(e.op, a.value, e.r, mode))
    ensures var r := Combined(e.op, a, b, mode);
            if r.Fault? then Dies(ps, Done(ps'), e, d) else Behaves(ps, ps', e, d, r, mode)
  {
    hide InfixPrecedence, Combined;
    ReduceInfix(ps, e, d, a, b, mode);
    var m := Pushed(Shifted(ps, e.op, d, a, mode).machine, b, RightMode(e.op, a.value, e.r, mode));
    var r := Combined(e.op, a, b, mode);
    forall p: nat | p <= 20 * d + Binding(e)
      ensures Collapse(ps'.machine, p) ==
              if r.Fault? then Halted(Undefined) else Collapse(Pushed(ps.machine, r, mode), p)
    {
      assert Collapse(ps'.machine, p) == Collapse(m, p);
      hide Reduce;
    }
  }

  lemma {:induction false} Simulate(ps: Parser, e: Expr, d: nat, env: string -> int, mode: Mode)
    requires Sentence(e) && Respects(e) && Ready(ps, e, d, mode)
    ensures Simulates(ps, e, d, env, mode)
    decreases e
  {
    hide Ready, Simulates, Step, InfixPrecedence, Machined, Shifted, RightMode;
    match e
    case Number(_) => SimulateLeaf(ps, e, d, env, mode);
    case Variable(_) => SimulateLeaf(ps, e, d, env, mode);
    case Bracketed(x) =>
      OpenBracketReady(ps, x, d, env, mode);
      Simulate(Step(ps, OpenBracket, env).value, x, d + 1, env, mode);
      SimulateBracketed(ps, x, d, env, mode);
    case Prefixed(op, x) =>
      PrefixReady(ps, op, x, d, env, mode);
      Simulate(Step(ps, Operator(op), env).value, x, d, env, mode);
      SimulatePrefixed(ps, op, x, d, env, mode);
    case Infixed(op, l, r) =>
      var a := Machined(l, env, mode);
      LeftReady(ps, e, d, mode);
      Simulate(ps, l, d, env, mode);
      if a.Meaning? {
        RightReady(ps, e, d, a, mode);
        Simulate(Shifted(ps, op, d, a, mode), r, d, env, RightMode(op, a.value, r, mode));
      }
      SimulateInfixed(ps, e, d, env, mode);
  }

  lemma SimulateBracketed(ps: Parser, x: Expr, d: nat, env: string -> int, mode: Mode)
    requires Sentence(x) && Ready(ps, Bracketed(x), d, mode) && Step(ps, OpenBracket, env).Done?
    requires Simulates(Step(ps, OpenBracket, env).value, x, d + 1, env, mode)
    ensures Simulates(ps, Bracketed(x), d, env, mode)
  {
    hide Ready, Behaves, Dies, Step, Collapse;
    var ps1, r := Step(ps, OpenBracket, env).value, Machined(x, env, mode);
    var ps2 := Run(Done(ps1), Tokens(x), env);
    Chain(ps, [OpenBracket], Tokens(x), [CloseBracket], env);
    RunOne(ps, OpenBracket, env);
    if ps2.Done? {
      RunOne(ps2.value, CloseBracket, env);
    }
    if r.Fault? {
      BracketDies(ps, ps2, x, d, env, mode);
    } else {
      CloseBracketBehaves(ps, ps2.value, x, d, r, env, mode);
    }
  }

  /** The collapse of a closing bracket meets the fault at the latest. */
  lemma BracketDies(ps: Parser, ps2: Result<Parser>, x: Expr, d: nat, env: string -> int, mode: Mode)
    requires Ready(ps, Bracketed(x), d, mode) && Dies(Step(ps, OpenBracket, env).value, ps2, x, d + 1)
    ensures if ps2.Done? then Step(ps2.value, CloseBracket, env) == Halted(Undefined) else ps2.reason == Undefined
    ensures Dies(ps, Halted(Undefined), Bracketed(x), d)
  {
    hide Collapse;
  }

  lemma SimulatePrefixed(ps: Parser, op: Op, x: Expr, d: nat, env: string -> int, mode: Mode)
    requires Sentence(Prefixed(op, x)) && Ready(ps, Prefixed(op, x), d, mode) && Step(ps, Operator(op), env).Done?
    requires Simulates(Step(ps, Operator(op), env).value, x, d, env, mode)
    ensures Simulates(ps, Prefixed(op, x), d, env, mode)
  {
    hide Ready, Behaves, Dies, Step, Collapse;
    PrefixReady(ps, op, x, d, env, mode);
    var ps1, a := Step(ps, Operator(op), env).value, Machined(x, env, mode);
    var ps2 := Run(Done(ps1), Tokens(x), env);
    RunConcat(Done(ps), [Operator(op)], Tokens(x), env);
    RunOne(ps, Operator(op), env);
    if a.Fault? {
      PrefixDies(ps, ps1, ps2, op, x, d);
    } else {
      PrefixBehaves(ps, ps1, ps2.value, op, x, d, a, mode);
    }
  }

  lemma PrefixDies(ps: Parser, ps1: Parser, ps2: Result<Parser>, op: Op, x: Expr, d: nat)
    requires Sentence(Prefixed(op, x)) && ps1.bracket == ps.bracket && Dies(ps1, ps2, x, d)
    ensures Dies(ps, ps2, Prefixed(op, x), d)
  {
    hide Collapse;
  }

  lemma SimulateInfixed(ps: Parser, e: Expr, d: nat, env: string -> int, mode: Mode)
    requires e.Infixed? && Sentence(e) && Respects(e) && Ready(ps, e, d, mode) && Simulates(ps, e.l, d, env, mode)
    requires var a := Machined(e.l, env, mode);
             a.Meaning? ==>
               Simulates(Shifted(ps, e.op, d, a, mode), e.r, d, env, RightMode(e.op, a.value, e.r, mode))
    ensures Simulates(ps, e, d, env, mode)
  {
    hide Ready, Behaves, Dies, Step, Collapse, Shifted, RightMode, Sentence, Respects, Combined;
    var a := Machined(e.l, env, mode);
    var ps1 := Run(Done(ps), Tokens(e.l), env);
    Chain(ps, Tokens(e.l), [Operator(e.op)], Tokens(e.r), env);
    if ps1.Done? {
      RunOne(ps1.value, Operator(e.op), env);
    }
    if a.Fault? {
      LeftDies(ps, ps1, e, d, env, mode);
    } else {
      ShiftInfix(ps, ps1.value, e, d, a, env, mode);
      var ps2, m2 := Shifted(ps, e.op, d, a, mode), RightMode(e.op, a.value, e.r, mode);
      var ps3, b := Run(Done(ps2), Tokens(e.r), env), Machined(e.r, env, m2);
      if b.Fault? {
        RightDies(ps, ps2, ps3, e, d, a, mode);
      } else {
        InfixBehaves(ps, ps3.value, e, d, a, b, mode);
      }
    }
  }

  /** The collapse of the operator meets the fault of the left side at the latest. */
  lemma LeftDies(ps: Parser, ps1: Result<Parser>, e: Expr, d: nat, env: string -> int, mode: Mode)
    requires e.Infixed? && Sentence(e) && Respects(e) && Ready(ps, e, d, mode) && Dies(ps, ps1, e.l, d)
    ensures if ps1.Done? then Step(ps1.value, Operator(e.op), env) == Halted(Undefined) else ps1.reason == Undefined
    ensures Dies(ps, Halted(Undefined), e, d)
  {
    hide Collapse, InfixPrecedence;
  }

  lemma RightDies(ps: Parser, ps2: Parser, ps3: Result<Parser>, e: Expr, d: nat, a: Meaning, mode: Mode)
    requires e.Infixed? && Respects(e) && Ready(ps, e, d, mode) && a.Meaning?
    requires ps2 == Shifted(ps, e.op, d, a, mode) && Dies(ps2, ps3, e.r, d)
    ensures Dies(ps, ps3, e, d)
  {
    hide Collapse, InfixPrecedence;
  }

  lemma Chain(ps: Parser, a: seq<Token>, b: seq<Token>, c: seq<Token>, env: string -> int)
    ensures Run(Done(ps), a + b + c, env) == Run(Run(Run(Done(ps), a, env), b, env), c, env)
  {
    RunConcat(Done(ps), a + b, c, env);
    RunConcat(Done(ps), a, b, env);
  }

  // ----- whole expressions -----

  predicate EndsHere(rest: seq<Token>) { rest == [] || rest[0] == End || rest[0] == CloseBracket }

  lemma {:induction false} ParseRuns(ps: Parser, tokens: seq<Token>, k: nat, n: nat, env: string -> int)
    requires k <= n <= |tokens| && Run(Done(ps), tokens[k..n], env).Done?
    ensures ParseFrom(ps, tokens, k, env) == ParseFrom(Run(Done(ps), tokens[k..n], env).value, tokens, n, env)
    decreases n - k
  {
    hide Step, Finish;
    if k < n {
      var next := Step(ps, tokens[k], env);
      assert tokens[k..n][1..] == tokens[k + 1..n];
      assert next.Done?;
      ParseRuns(next.value, tokens, k + 1, n, env);
    }
  }

  /** A token on which the machine halts, other than by the end of the expression, ends the parse. */
  lemma {:induction false} ParseHalts(ps: Parser, tokens: seq<Token>, k: nat, n: nat, env: string -> int)
    requires k <= n <= |tokens| && Run(Done(ps), tokens[k..n], env) == Halted(Undefined)
    ensures ParseFrom(ps, tokens, k, env) == Halted(Undefined)
    decreases n - k
  {
    hide Step, Finish;
    assert k < n;
    var next := Step(ps, tokens[k], env);
    assert tokens[k..n][1..] == tokens[k + 1..n];
    if next.Done? {
      ParseHalts(next.value, tokens, k + 1, n, env);
    }
  }

  /** The parser stops right after the expression with what Machined says. */
  lemma ParseRespecting(e: Expr, rest: seq<Token>, env: string -> int)
    requires Sentence(e) && Respects(e) && Depth(e) < 1000 && EndsHere(rest)
    ensures Parse(Tokens(e) + rest, env) ==
            match Machined(e, env, Live)
            case Fault => Halted(Undefined)
            case Meaning(value, ran) => Done(Answer(true, value, ran, |Tokens(e)|))
  {
    hide Machined, Step, Run;
    var tokens, n := Tokens(e) + rest, |Tokens(e)|;
    assert tokens[0..n] == Tokens(e);
    Simulate(Start(), e, 0, env, Live);
    var after := Run(Done(Start()), Tokens(e), env);
    if after.Done? {
      ParseRuns(Start(), tokens, 0, n, env);
      StopsHere(after.value, tokens, n, env);
      FinishMeans(after.value, e, n, Machined(e, env, Live));
    } else {
      ParseHalts(Start(), tokens, 0, n, env);
    }
  }

  lemma StopsHere(ps: Parser, tokens: seq<Token>, n: nat, env: string -> int)
    requires n <= |tokens| && EndsHere(tokens[n..]) && ps.bracket == 0
    ensures ParseFrom(ps, tokens, n, env) == Finish(ps, n)
  {
    hide Finish, Collapse;
  }

  lemma FinishMeans(ps: Parser, e: Expr, n: nat, r: Meaning)
    requires if r.Fault? then Dies(Start(), Done(ps), e, 0) else Behaves(Start(), ps, e, 0, r, Live)
    ensures Finish(ps, n) ==
            match r case Fault => Halted(Undefined) case Meaning(value, ran) => Done(Answer(true, value, ran, n))
  {
    if r.Meaning? {
      var m := Machine([Value(r.value)], DEEP_PRECEDENCE, r.ran);
      assert Pushed(Start().machine, r, Live) == m by {
        assert [] + r.ran == r.ran;
      }
      assert Collapse(ps.machine, 0) == Collapse(m, 0);
    }
  }

  // ----- when the machine finishes, and with which value -----

  /** A decided && or || that is reached has a right side that starts with a variable and goes on:
      the variable turns ignoring off too early, and the rest of that side is run. */
  predicate Leaks(e: Expr, env: string -> int) {
    match e
    case Number(_) | Variable(_) => false
    case Bracketed(x) => Leaks(x, env)
    case Prefixed(_, x) => Leaks(x, env)
    case Infixed(op, l, r) =>
      var a := Eval(l, env);
      || Leaks(l, env)
      || (a.Meaning? && if Decides(op, a.value) then StartsWithVariable(r) && !r.Variable? else Leaks(r, env))
  }

  /** The expression with its first variable taken as 0, which is how the machine runs a leaking side. */
  function Blank(e: Expr): Expr {
    match e
    case Variable(_) => Number(0)
    case Infixed(op, l, r) => Infixed(op, Blank(l), r)
    case _ => e
  }

  function Size(e: Expr): nat {
    match e
    case Number(_) | Variable(_) => 0
    case Bracketed(x) => 1 + Size(x)
    case Prefixed(_, x) => 1 + Size(x)
    case Infixed(_, l, r) => 1 + Size(l) + Size(r)
  }

  lemma {:induction false} BlankSize(e: Expr)
    ensures Size(Blank(e)) == Size(e)
  {
    if e.Infixed? {
      BlankSize(e.l);
    }
  }

  /** Every right side that leaks evaluates without fault on its own, and so do those inside it. */
  predicate Harmless(e: Expr, env: string -> int)
    decreases Size(e)
  {
    match e
    case Number(_) | Variable(_) => true
    case Bracketed(x) => Harmless(x, env)
    case Prefixed(_, x) => Harmless(x, env)
    case Infixed(op, l, r) =>
      var a := Eval(l, env);
      BlankSize(r);
      && Harmless(l, env)
      && (a.Meaning? ==>
            if !Decides(op, a.value) then Harmless(r, env)
            else StartsWithVariable(r) ==> Eval(Blank(r), env).Meaning? && Harmless(Blank(r), env))
  }

  lemma {:induction false} WakingIsBlank(e: Expr, env: string -> int)
    requires StartsWithVariable(e)
    ensures Machined(e, env, Waking) == Machined(Blank(e), env, Live)
  {
    hide Applied, Decides;
    if e.Infixed? {
      WakingIsBlank(e.l, env);
    }
  }

  lemma {:induction false} DeadRunsNothing(e: Expr, env: string -> int)
    ensures Machined(e, env, Dead).Meaning? && Machined(e, env, Dead).ran == []
  {
    hide Applied;
    match e
    case Number(_) =>
    case Variable(_) =>
    case Bracketed(x) => DeadRunsNothing(x, env);
    case Prefixed(_, x) => DeadRunsNothing(x, env);
    case Infixed(op, l, r) =>
      DeadRunsNothing(l, env);
      DeadRunsNothing(r, env);
  }

  lemma DecidedValue(op: Op, a: Meaning, b: Meaning)
    requires a.Meaning? && b.Meaning? && Decides(op, a.value)
    ensures Applied(op, a, b) == Meaning(Truth(op == LogicalOr), a.ran + b.ran + [Logical(op)])
  { }

  /** The machine finishes exactly when the meaning does and every leak is harmless, and then with the
      value of the meaning. */
  lemma {:induction false} MachinedValue(e: Expr, env: string -> int)
    ensures Machined(e, env, Live).Meaning? <==> Eval(e, env).Meaning? && Harmless(e, env)
    ensures Machined(e, env, Live).Meaning? ==> Machined(e, env, Live).value == Eval(e, env).value
    decreases Size(e)
  {
    hide PrefixOperator;
    match e
    case Number(_) =>
    case Variable(_) =>
    case Bracketed(x) => MachinedValue(x, env);
    case Prefixed(_, x) => MachinedValue(x, env);
    case Infixed(op, l, r) =>
      hide InfixOperator, InfixEvent, Defined;
      MachinedValue(l, env);
      var a := Machined(l, env, Live);
      if a.Fault? {
      } else if !Decides(op, a.value) {
        MachinedValue(r, env);
      } else {
        var b := Machined(r, env, RightMode(op, a.value, r, Live));
        if StartsWithVariable(r) {
          BlankSize(r);
          WakingIsBlank(r, env);
          MachinedValue(Blank(r), env);
        } else {
          DeadRunsNothing(r, env);
        }
        if b.Meaning? {
          DecidedValue(op, a, b);
        }
      }
  }

  /** If the machine finishes it ran at least what the meaning asks for, and more exactly when the
      expression leaks; without leaks it does what the meaning says, faults included. */
  lemma {:induction false} RunsMore(e: Expr, env: string -> int)
    ensures Machined(e, env, Live).Meaning? ==>
              && Eval(e, env).Meaning? && |Machined(e, env, Live).ran| >= |Eval(e, env).ran|
              && (Leaks(e, env) ==> |Machined(e, env, Live).ran| > |Eval(e, env).ran|)
    ensures !Leaks(e, env) ==> Machined(e, env, Live) == Eval(e, env)
  {
    hide InfixOperator, InfixEvent, Defined, PrefixOperator;
    MachinedValue(e, env);
    match e
    case Number(_) =>
    case Variable(_) =>
    case Bracketed(x) => RunsMore(x, env);
    case Prefixed(_, x) =>
      RunsMore(x, env);
      MachinedValue(x, env);
    case Infixed(op, l, r) =>
      RunsMore(l, env);
      RunsMore(r, env);
      MachinedValue(l, env);
      MachinedValue(r, env);
      if Machined(l, env, Live).Meaning? && Decides(op, Eval(l, env).value) {
        RunsMoreRight(e, env);
      }
  }

  lemma RunsMoreRight(e: Expr, env: string -> int)
    requires e.Infixed? && Machined(e.l, env, Live).Meaning? && Decides(e.op, Machined(e.l, env, Live).value)
    ensures var a := Machined(e.l, env, Live);
            var b := Machined(e.r, env, RightMode(e.op, a.value, e.r, Live));
            && (b.Meaning? ==> Machined(e, env, Live) == Meaning(Truth(e.op == LogicalOr),
                                                                 a.ran + b.ran + [Logical(e.op)]))
            && (b.Meaning? ==> (b.ran != []) == (StartsWithVariable(e.r) && !e.r.Variable?))
            && (!(StartsWithVariable(e.r) && !e.r.Variable?) ==> b.Meaning? && b.ran == [])
  {
    hide InfixOperator, InfixEvent, Defined;
    DeadRunsNothing(e.r, env);
    var a := Machined(e.l, env, Live);
    var b := Machined(e.r, env, RightMode(e.op, a.value, e.r, Live));
    if b.Meaning? {
      DecidedValue(e.op, a, b);
    }
  }

  lemma {:induction false} NoVariablesNoLeak(e: Expr, env: string -> int)
    requires !HasVariable(e)
    ensures !Leaks(e, env) && !StartsWithVariable(e)
  {
    match e
    case Number(_) =>
    case Bracketed(x) => NoVariablesNoLeak(x, env);
    case Prefixed(_, x) => NoVariablesNoLeak(x, env);
    case Infixed(op, l, r) =>
      NoVariablesNoLeak(l, env);
      NoVariablesNoLeak(r, env);
  }

  predicate HasVariable(e: Expr) {
    match e
    case Number(_) => false
    case Variable(_) => true
    case Bracketed(x) => HasVariable(x)
    case Prefixed(_, x) => HasVariable(x)
    case Infixed(_, l, r) => HasVariable(l) || HasVariable(r)
  }

  /** Every sentence, in whatever way it is read, evaluates to the value of its reading by precedence
      exactly when that reading has one and its leaks are harmless; else the source traps. The operators
      and lookups that are run are those of the reading exactly when it does not leak, and without
      leaks the source traps exactly when the reading faults. */
  lemma EvaluatesByPrecedence(e: Expr, rest: seq<Token>, env: string -> int)
    requires Sentence(e) && Depth(e) < 1000 && EndsHere(rest)
    ensures Respects(Normal(e)) && Tokens(Normal(e)) == Tokens(e)
    ensures var r, t := Parse(Tokens(e) + rest, env), Normal(e);
            && (r.Done? <==> Eval(t, env).Meaning? && Harmless(t, env))
            && (!r.Done? ==> r == Halted(Undefined))
            && (r.Done? ==> r.value.found && r.value.consumed == |Tokens(e)| && r.value.value == Eval(t, env).value)
            && (r.Done? ==> (r.value.ran == Eval(t, env).ran <==> !Leaks(t, env)))
            && (!Leaks(t, env) ==> (r.Done? <==> Eval(t, env).Meaning?))
            && (!HasVariable(t) ==> !Leaks(t, env))
  {
    hide Machined, Eval, Leaks, Harmless, Tokens, Parse, HasVariable;
    var t := Normal(e);
    NormalRespects(e);
    NormalDepth(e);
    ParseRespecting(t, rest, env);
    MachinedValue(t, env);
    RunsMore(t, env);
    if !HasVariable(t) {
      NoVariablesNoLeak(t, env);
    }
  }

  lemma {:induction false} AttachDepth(t: Expr, op: Op, x: Expr)
    ensures Depth(Attach(t, op, x)) == Max(Depth(t), Depth(x))
  {
    hide InfixPrecedence;
    if t.Infixed? && InfixPrecedence(t.op) < InfixPrecedence(op) {
      AttachDepth(t.r, op, x);
    }
  }

  lemma {:induction false} JoinDepth(t: Expr, op: Op, e: Expr)
    ensures Depth(Join(t, op, e)) == Max(Depth(t), Depth(e))
    decreases e, 1
  {
    match e
    case Infixed(o, l, r) =>
      JoinDepth(t, op, l);
      JoinDepth(Join(t, op, l), o, r);
    case _ =>
      NormalDepth(e);
      AttachDepth(t, op, Normal(e));
  }

  lemma {:induction false} NormalDepth(e: Expr)
    ensures Depth(Normal(e)) == Depth(e)
    decreases e, 0
  {
    match e
    case Number(_) =>
    case Variable(_) =>
    case Bracketed(x) => NormalDepth(x);
    case Prefixed(_, x) => NormalDepth(x);
    case Infixed(op, l, r) =>
      NormalDepth(l);
      JoinDepth(Normal(l), op, r);
  }

  /** 0 && x / y divides even though the left side decides, because x turns ignoring off: with y = 0 the
      source traps where the meaning is 0. */
  lemma LeakExample(env: string -> int)
    ensures var e := Infixed(LogicalAnd, Number(0), Infixed(Slash, Variable("x"), Variable("y")));
            && Eval(e, env) == Meaning(0, [Logical(LogicalAnd)])
            && Leaks(e, env) && (Harmless(e, env) <==> env("y") != 0)
            && Parse(Tokens(e), env) ==
               if env("y") == 0 then Halted(Undefined)
               else Done(Answer(true, 0, [Read("y"), Binary(Slash, 0, env("y")), Logical(LogicalAnd)], 5))
  {
    hide InfixOperator;
    var q := Infixed(Slash, Variable("x"), Variable("y"));
    var e := Infixed(LogicalAnd, Number(0), q);
    assert Sentence(e) && Respects(e) && Depth(e) == 0;
    assert Tokens(e) + [] == Tokens(e);
    assert Tokens(e) == [Literal(0), Operator(LogicalAnd), Identifier("x"), Operator(Slash), Identifier("y")];
    ParseRespecting(e, [], env);
    MachinedValue(e, env);
    var a, b := Meaning(0, []), Machined(q, env, Waking);
    assert RightMode(LogicalAnd, 0, q, Live) == Waking;
    assert b == if env("y") == 0 then Fault
                else Meaning(InfixOperator(Slash, 0, env("y")), [Read("y"), Binary(Slash, 0, env("y"))]);
    if b.Meaning? {
      DecidedValue(LogicalAnd, a, b);
      assert [] + b.ran + [Logical(LogicalAnd)] == [Read("y"), Binary(Slash, 0, env("y")), Logical(LogicalAnd)];
    }
    hide Tokens, Parse;
  }

  // ----- deep nesting -----

  function Nested(k: nat, e: Expr): Expr { if k == 0 then e else Bracketed(Nested(k - 1, e)) }

  const ONE_PLUS_ONE: Expr := Infixed(Plus, Number(1), Number(1))

  function Opens(k: nat): seq<Token> { seq(k, _ => OpenBracket) }
  function Closes(k: nat): seq<Token> { seq(k, _ => CloseBracket) }

  lemma {:induction false} OpenMany(ps: Parser, k: nat, env: string -> int)
    requires ps.prefixState
    ensures var p := if k == 0 then ps.precedence else ps.bracket + 20 * k - 5;
            Run(Done(ps), Opens(k), env) == Done(ps.(bracket := ps.bracket + 20 * k, precedence := p))
    decreases k
  {
    if k > 0 {
      assert Opens(k)[1..] == Opens(k - 1);
      OpenMany(Step(ps, OpenBracket, env).value, k - 1, env);
    }
  }

  lemma {:induction false} NestedTokens(k: nat, e: Expr)
    ensures Tokens(Nested(k, e)) == Opens(k) + Tokens(e) + Closes(k)
  {
    if k > 0 {
      NestedTokens(k - 1, e);
      assert Opens(k) == [OpenBracket] + Opens(k - 1);
      assert Closes(k) == Closes(k - 1) + [CloseBracket];
      assert Tokens(Nested(k, e)) == [OpenBracket] + Tokens(Nested(k - 1, e)) + [CloseBracket];
    }
  }

  lemma {:induction false} NestedEval(k: nat, e: Expr, env: string -> int)
    ensures Eval(Nested(k, e), env) == Eval(e, env)
  {
    if k > 0 {
      NestedEval(k - 1, e, env);
    }
  }

  /** The sum on the stack, its operator stored with precedence w, and the stack once it is reduced. */
  function Unreduced(w: nat): Machine {
    Machine([Value(1), Pending(Plus, OrderInfix, w), Value(1)], DEEP_PRECEDENCE, [])
  }

  function Reduced(w: nat): Machine {
    if w <= DEEP_PRECEDENCE then Machine([Value(2)], DEEP_PRECEDENCE, [Binary(Plus, 1, 1)])
    else Machine([Value(0)], DEEP_PRECEDENCE, [])
  }

  lemma SumCollapse(w: nat, p: nat)
    ensures Collapse(Unreduced(w), p) == Done(if w < p then Unreduced(w) else Reduced(w))
    ensures Collapse(Reduced(w), p) == Done(Reduced(w))
  {
    if w >= p {
      var m := Unreduced(w);
      assert InfixOperator(Plus, 1, 1) == 2 && InfixEvent(Plus, 1, 1) == Binary(Plus, 1, 1);
      assert m.stack[..0] + [Value(2)] == [Value(2)] && m.stack[..0] + [Value(0)] == [Value(0)];
      assert [] + [Binary(Plus, 1, 1)] == [Binary(Plus, 1, 1)];
      hide InfixOperator;
      assert Reduce(m) == Done(Reduced(w));
    }
  }

  lemma {:induction false} CloseMany(ps: Parser, k: nat, w: nat, env: string -> int) returns (ps': Parser)
    requires !ps.prefixState && ps.bracket == 20 * k && (ps.machine == Unreduced(w) || ps.machine == Reduced(w))
    ensures Run(Done(ps), Closes(k), env) == Done(ps') && ps'.bracket == 0
    ensures ps'.machine == Unreduced(w) || ps'.machine == Reduced(w)
    decreases k
  {
    hide Collapse, Unreduced, Reduced;
    if k == 0 {
      ps' := ps;
    } else {
      SumCollapse(w, ps.bracket);
      assert Closes(k)[1..] == Closes(k - 1);
      ps' := CloseMany(Step(ps, CloseBracket, env).value, k - 1, w, env);
    }
  }

  lemma SumRead(ps: Parser, env: string -> int)
    requires ps.prefixState && ps.machine == Machine([], DEEP_PRECEDENCE, [])
    ensures var p := ps.bracket + 12;
            Run(Done(ps), Tokens(ONE_PLUS_ONE), env) == Done(Parser(Unreduced(Stored(p)), ps.bracket, p, false))
  {
    hide Stored;
    var p := ps.bracket + 12;
    var m := Machine([Value(1), Pending(Plus, OrderInfix, Stored(p))], DEEP_PRECEDENCE, []);
    var ps1 := ps.(machine := Machine([Value(1)], DEEP_PRECEDENCE, []), prefixState := false);
    var ps2 := Parser(m, ps.bracket, p, true);
    var ps3 := Parser(Unreduced(Stored(p)), ps.bracket, p, false);
    assert Tokens(ONE_PLUS_ONE) == [Literal(1)] + [Operator(Plus)] + [Literal(1)];
    hide Tokens, Run, Step;
    Chain(ps, [Literal(1)], [Operator(Plus)], [Literal(1)], env);
    LiteralRead(ps, ps1, env);
    PlusRead(ps1, ps2, env);
    LiteralRead(ps2, ps3, env);
    RunOne(ps, Literal(1), env);
    RunOne(ps1, Operator(Plus), env);
    RunOne(ps2, Literal(1), env);
  }

  lemma LiteralRead(ps: Parser, ps': Parser, env: string -> int)
    requires ps.prefixState && ps'.machine.stack == ps.machine.stack + [Value(1)]
    requires ps' == ps.(machine := ps.machine.(stack := ps'.machine.stack), prefixState := false)
    ensures Step(ps, Literal(1), env) == Done(ps')
  { }

  lemma PlusRead(ps: Parser, ps': Parser, env: string -> int)
    requires !ps.prefixState && ps.machine == Machine([Value(1)], DEEP_PRECEDENCE, [])
    requires var p := ps.bracket + 12;
             var m := Machine([Value(1), Pending(Plus, OrderInfix, Stored(p))], DEEP_PRECEDENCE, []);
             ps' == Parser(m, ps.bracket, p, true)
    ensures Step(ps, Operator(Plus), env) == Done(ps')
  {
    assert Collapse(ps.machine, ps.bracket + 12) == Done(ps.machine);
    hide Collapse, Stored;
    assert ps.machine.Push(Pending(Plus, OrderInfix, Stored(ps.bracket + 12))) == ps'.machine;
  }

  /** 1 + 1 in k brackets is 2 if and only if the sixteen bits that are left of its precedence do not lie
      above the precedence that stands for "ignore nothing"; otherwise it is 0. */
  lemma NestedSum(k: nat, env: string -> int)
    ensures var r := Parse(Tokens(Nested(k, ONE_PLUS_ONE)), env);
            && r.Done? && r.value.found && r.value.consumed == |Tokens(Nested(k, ONE_PLUS_ONE))|
            && r.value.value == (if (20 * k + 12) % 0x1_0000 <= DEEP_PRECEDENCE then 2 else 0)
    ensures Eval(Nested(k, ONE_PLUS_ONE), env) == Meaning(2, [Binary(Plus, 1, 1)])
    ensures k < 1000 || k == 3277 ==> (20 * k + 12) % 0x1_0000 <= DEEP_PRECEDENCE
    ensures k == 1000 || k == 3276 ==> (20 * k + 12) % 0x1_0000 > DEEP_PRECEDENCE
  {
    hide Nested, Tokens, Run, Step, Unreduced, Reduced, Eval, ParseFrom, Collapse;
    var e, w := Nested(k, ONE_PLUS_ONE), Stored(20 * k + 12);
    NestedEval(k, ONE_PLUS_ONE, env);
    SumMeaning(env);
    NestedTokens(k, ONE_PLUS_ONE);
    Chain(Start(), Opens(k), Tokens(ONE_PLUS_ONE), Closes(k), env);
    OpenMany(Start(), k, env);
    var ps := Run(Done(Start()), Opens(k), env).value;
    SumRead(ps, env);
    var ps' := CloseMany(Parser(Unreduced(w), 20 * k, 20 * k + 12, false), k, w, env);
    assert Tokens(e)[0..|Tokens(e)|] == Tokens(e);
    ParseRuns(Start(), Tokens(e), 0, |Tokens(e)|, env);
    SumCollapse(w, 0);
    StopsHere(ps', Tokens(e), |Tokens(e)|, env);
    ReducedValue(w);
  }

  lemma ReducedValue(w: nat)
    ensures |Reduced(w).stack| == 1 && Reduced(w).stack[0] == Value(if w <= DEEP_PRECEDENCE then 2 else 0)
  { }

  lemma SumMeaning(env: string -> int)
    ensures Eval(ONE_PLUS_ONE, env) == Meaning(2, [Binary(Plus, 1, 1)])
  {
    assert Wrap32(2) == 2;
  }
}
