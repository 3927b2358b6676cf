/** The expressions of libjl777/expression.c by the grammar of C, one rule for each level of operators, and the values
    of its operators by what C says of them. The operator table of the evaluator is shown to be this grammar. */
module ExpressionGrammar {
  import Bits
  import opened Expression
  import opened ExpressionTree

  // ----- the grammar -----

  /** The infix operators from the loosest level to the tightest. */
  const LEVELS: seq<seq<Op>> := [
    [LogicalOr], [LogicalAnd], [ArithmeticOr], [ArithmeticExor], [Ampersand], [Equal, NotEqual],
    [LessThan, GreaterThan, LessEqual, GreaterEqual], [ShiftLeft, ShiftRight], [Plus, Minus],
    [Asterisk, Slash, Modulus]]

  /** An expression of level k is one of level k + 1, or one of level k, an operator of that level, and one of level
      k + 1; above all levels are operands, with at most one prefix operator. */
  predicate Derived(e: Expr, k: nat)
    requires k <= |LEVELS|
    decreases e, |LEVELS| - k
  {
    if k < |LEVELS| then
      || Derived(e, k + 1)
      || (e.Infixed? && e.op in LEVELS[k] && Derived(e.l, k) && Derived(e.r, k + 1))
    else
      match e
      case Number(_) | Variable(_) => true
      case Bracketed(x) => Derived(x, 0)
      case Prefixed(op, x) => op in {Plus, Minus, UnaryNot, UnaryExor} && !x.Prefixed? && Derived(x, k)
      case Infixed(_, _, _) => false
  }

  lemma LevelPrecedence(op: Op, k: nat)
    requires k < |LEVELS|
    ensures op in LEVELS[k] <==> InfixPrecedence(op) == 4 + k
  { }

  /** The grammar derives exactly the readings that respect the operator table. */
  lemma {:induction false} DerivedExactly(e: Expr, k: nat)
    requires k <= |LEVELS|
    ensures Derived(e, k) <==> Sentence(e) && Respects(e) && Binding(e) >= 4 + k
    decreases e, |LEVELS| - k
  {
    hide InfixPrecedence;
    if e.Infixed? {
      InfixBelowPrefix(e.op);
    }
    if k < |LEVELS| {
      DerivedExactly(e, k + 1);
      if e.Infixed? {
        LevelPrecedence(e.op, k);
        DerivedExactly(e.l, k);
        DerivedExactly(e.r, k + 1);
      }
    } else {
      match e
      case Number(_) =>
      case Variable(_) =>
      case Bracketed(x) =>
        DerivedExactly(x, 0);
        BindingAtLeast(x);
      case Prefixed(op, x) => DerivedExactly(x, k);
      case Infixed(_, _, _) =>
    }
  }

  /** Every sentence, in whatever way it is read, has the tokens of an expression of the grammar. */
  lemma GrammarComplete(e: Expr)
    requires Sentence(e)
    ensures Derived(Normal(e), 0) && Tokens(Normal(e)) == Tokens(e)
  {
    hide Derived, Respects;
    NormalRespects(e);
    DerivedExactly(Normal(e), 0);
    BindingAtLeast(Normal(e));
  }

  lemma BindingAtLeast(e: Expr)
    ensures Sentence(e) ==> Binding(e) >= 4
  { }

  /** What is derived by the grammar evaluates to its value exactly when it has one and its leaks are harmless;
      else the source traps. */
  lemma EvaluatesByGrammar(e: Expr, rest: seq<Token>, env: string -> int)
    requires Derived(e, 0) && Depth(e) < 1000 && EndsHere(rest)
    ensures var r := Parse(Tokens(e) + rest, env);
            && (r.Done? <==> Eval(e, env).Meaning? && Harmless(e, env))
            && (!r.Done? ==> r == Halted(Undefined))
            && (r.Done? ==> r.value.found && r.value.consumed == |Tokens(e)| && r.value.value == Eval(e, env).value)
            && (!HasVariable(e) ==> (r.Done? <==> Eval(e, env).Meaning?))
  {
    hide Machined, Eval, Leaks, Harmless, Tokens, Parse, HasVariable, Derived, Respects;
    DerivedExactly(e, 0);
    ParseRespecting(e, rest, env);
    MachinedValue(e, env);
    RunsMore(e, env);
    if !HasVariable(e) {
      NoVariablesNoLeak(e, env);
    }
  }

  lemma {:induction false} Loosen(e: Expr, k: nat, j: nat)
    requires j <= k <= |LEVELS| && Derived(e, k)
    ensures Derived(e, j)
    decreases k - j
  {
    if j < k {
      Loosen(e, k, j + 1);
    }
  }

  lemma Derives(l: Expr, i: nat, op: Op, k: nat, r: Expr, j: nat)
    requires k < |LEVELS| && op in LEVELS[k]
    requires k <= i <= |LEVELS| && Derived(l, i) && k < j <= |LEVELS| && Derived(r, j)
    ensures Derived(Infixed(op, l, r), k)
  {
    assert Derived(l, k) && Derived(r, k + 1) by {
      hide Derived;
      Loosen(l, i, k);
      Loosen(r, j, k + 1);
    }
  }

  /** Two infix operators between three operands: the tighter one is applied first, and the left one if they are on
      one level. An operand may have a prefix operator, which binds tighter than both. */
  lemma ThreeOperands(x: Expr, p: Op, i: nat, y: Expr, q: Op, j: nat, z: Expr, env: string -> int)
    requires i < |LEVELS| && p in LEVELS[i] && j < |LEVELS| && q in LEVELS[j]
    requires Derived(x, |LEVELS|) && Derived(y, |LEVELS|) && Derived(z, |LEVELS|)
    requires Depth(x) < 1000 && Depth(y) < 1000 && Depth(z) < 1000
    ensures var e := if j > i then Infixed(p, x, Infixed(q, y, z)) else Infixed(q, Infixed(p, x, y), z);
            var r := Parse(Tokens(x) + [Operator(p)] + Tokens(y) + [Operator(q)] + Tokens(z), env);
            && (r.Done? <==> Eval(e, env).Meaning? && Harmless(e, env))
            && (!HasVariable(e) ==> (r.Done? <==> Eval(e, env).Meaning?))
            && (r.Done? ==> r.value.value == Eval(e, env).value)
  {
    hide Eval, Harmless, Parse, HasVariable, Derived, Tokens;
    var e := if j > i then Infixed(p, x, Infixed(q, y, z)) else Infixed(q, Infixed(p, x, y), z);
    var ts := Tokens(x) + [Operator(p)] + Tokens(y) + [Operator(q)] + Tokens(z);
    assert Tokens(e) == ts by {
      InfixTokens(p, x, y);
      InfixTokens(q, y, z);
      InfixTokens(p, x, Infixed(q, y, z));
      InfixTokens(q, Infixed(p, x, y), z);
      Regroup(Tokens(x) + [Operator(p)], Tokens(y), [Operator(q)], Tokens(z));
    }
    if j > i {
      Derives(y, |LEVELS|, q, j, z, |LEVELS|);
      Derives(x, |LEVELS|, p, i, Infixed(q, y, z), j);
    } else {
      Derives(x, |LEVELS|, p, i, y, |LEVELS|);
      Derives(Infixed(p, x, y), i, q, j, z, |LEVELS|);
    }
    Loosen(e, if j > i then i else j, 0);
    assert ts + [] == ts;
    EvaluatesByGrammar(e, [], env);
  }

  // ----- what the operators compute -----

  /** r is the 32-bit signed integer congruent to x. */
  predicate SameInt(r: int, x: int) { -0x8000_0000 <= r < 0x8000_0000 && (x - r) % 0x1_0000_0000 == 0 }

  /** Bit i of an integer in two's complement. */
  function IntBit(x: int, i: nat): int {
    Bits.Exp2Positive(i);
    x / Bits.Exp2(i) % 2
  }

  /** a = q b + m with a quotient that is truncated toward zero. */
  predicate Divides(a: int, b: int, q: int, m: int) {
    && a == q * b + m
    && (if b > 0 then -b < m < b else b < m < -b)
    && (a >= 0 ==> m >= 0) && (a <= 0 ==> m <= 0)
  }

  /** a = q e + m with a quotient that is rounded down. */
  predicate Floored(a: int, e: int, q: int, m: int) { a == q * e + m && 0 <= m < e }

  /** r is what C gives for the operator on a and b, converted to int. */
  ghost predicate Means(op: Op, a: int, b: int, r: int) {
    match op
    case Plus => SameInt(r, a + b)
    case Minus => SameInt(r, a - b)
    case Asterisk => SameInt(r, a * b)
    case Slash => exists q, m :: Divides(a, b, q, m) && SameInt(r, q)
    case Modulus => exists q, m :: Divides(a, b, q, m) && SameInt(r, m)
    case ShiftLeft => b >= 0 && SameInt(r, a * Bits.Exp2(b))
    case ShiftRight => b >= 0 && exists q, m :: Floored(a, Bits.Exp2(b), q, m) && SameInt(r, q)
    case Ampersand =>
      SameInt(r, r) && forall i | 0 <= i < 32 :: IntBit(r, i) == 1 <==> IntBit(a, i) + IntBit(b, i) == 2
    case ArithmeticOr =>
      SameInt(r, r) && forall i | 0 <= i < 32 :: IntBit(r, i) == 1 <==> IntBit(a, i) + IntBit(b, i) > 0
    case ArithmeticExor =>
      SameInt(r, r) && forall i | 0 <= i < 32 :: IntBit(r, i) == 1 <==> IntBit(a, i) + IntBit(b, i) == 1
    case Equal => r == if a == b then 1 else 0
    case NotEqual => r == if a == b then 0 else 1
    case LessThan => r == if a < b then 1 else 0
    case GreaterThan => r == if b < a then 1 else 0
    case LessEqual => r == if b < a then 0 else 1
    case GreaterEqual => r == if a < b then 0 else 1
    case LogicalAnd => r == if a == 0 || b == 0 then 0 else 1
    case LogicalOr => r == if a == 0 && b == 0 then 0 else 1
    case UnaryNot | UnaryExor => r == 0
  }

  lemma WrapSame(x: int)
    ensures SameInt(Wrap32(x), x)
  { }

  /** Numbers that agree modulo 2^n have the same low bits. */
  lemma SameBits(x: int, q: int, n: nat, i: nat)
    requires i < n
    ensures IntBit(x + q * Bits.Exp2(n), i) == IntBit(x, i)
  {
    hide Bits.Exp2;
    var e, f := Bits.Exp2(i), Bits.Exp2(n - i - 1);
    Bits.Exp2Positive(i);
    Bits.Exp2Add(i, n - i);
    Bits.Exp2Succ(n - i);
    assert q * Bits.Exp2(n) == (2 * (q * f)) * e by {
      assert Bits.Exp2(n) == e * (2 * f);
      assert q * (e * (2 * f)) == (2 * (q * f)) * e;
    }
    Shift(x, 2 * (q * f), e);
  }

  lemma Shift(x: int, k: int, e: int)
    requires e > 0
    ensures (x + k * e) / e == x / e + k
  {
    assert x + k * e == (x / e + k) * e + x % e by { assert (x / e + k) * e == (x / e) * e + k * e; }
    Bits.DivUnique(x + k * e, e, x / e + k, x % e);
  }

  lemma BitStep(x: nat, i: nat)
    ensures IntBit(x, i + 1) == IntBit(x / 2, i) && IntBit(x, 0) == x % 2
  {
    Bits.Exp2Positive(i);
    Bits.DivDiv(x, 2, Bits.Exp2(i));
    assert Bits.Exp2(0) == 1;
  }

  lemma {:induction false} BitwiseBits(a: nat, b: nat, i: nat)
    ensures IntBit(Bits.And(a, b), i) == 1 <==> IntBit(a, i) + IntBit(b, i) == 2
    ensures IntBit(Bits.Or(a, b), i) == 1 <==> IntBit(a, i) + IntBit(b, i) > 0
    ensures IntBit(Bits.Xor(a, b), i) == 1 <==> IntBit(a, i) + IntBit(b, i) == 1
    decreases i
  {
    hide IntBit;
    BitwiseHalves(a, b);
    if i == 0 {
      BitStep(a, 0);
      BitStep(b, 0);
      BitStep(Bits.And(a, b), 0);
      BitStep(Bits.Or(a, b), 0);
      BitStep(Bits.Xor(a, b), 0);
    } else {
      BitwiseBits(a / 2, b / 2, i - 1);
      BitStep(a, i - 1);
      BitStep(b, i - 1);
      BitStep(Bits.And(a, b), i - 1);
      BitStep(Bits.Or(a, b), i - 1);
      BitStep(Bits.Xor(a, b), i - 1);
    }
  }

  lemma BitwiseHalves(a: nat, b: nat)
    ensures Bits.And(a, b) / 2 == Bits.And(a / 2, b / 2) && Bits.And(a, b) % 2 == (if a % 2 + b % 2 == 2 then 1 else 0)
    ensures Bits.Or(a, b) / 2 == Bits.Or(a / 2, b / 2) && Bits.Or(a, b) % 2 == (if a % 2 + b % 2 > 0 then 1 else 0)
    ensures Bits.Xor(a, b) / 2 == Bits.Xor(a / 2, b / 2) && Bits.Xor(a, b) % 2 == (if a % 2 + b % 2 == 1 then 1 else 0)
  { }

  lemma Unsigned64Bits(x: int, i: nat, n: nat)
    requires i < 32 && n == 64
    ensures IntBit(Unsigned64(x), i) == IntBit(x, i)
  {
    hide Bits.Exp2, IntBit;
    Bits.WordExp2();
    SameBits(Unsigned64(x), x / Bits.Exp2(n), n, i);
  }

  lemma WrapBits(x: int, i: nat, n: nat)
    requires i < 32 && n == 32
    ensures IntBit(Wrap32(x), i) == IntBit(x, i)
  {
    hide Bits.Exp2, IntBit;
    Bits.WordExp2();
    WrapSame(x);
    SameBits(Wrap32(x), (x - Wrap32(x)) / Bits.Exp2(n), n, i);
  }

  lemma BitwiseMeans(op: Op, a: int, b: int)
    requires op in {Ampersand, ArithmeticOr, ArithmeticExor}
    ensures Means(op, a, b, InfixOperator(op, a, b))
  {
    var u, v, r := Unsigned64(a), Unsigned64(b), InfixOperator(op, a, b);
    var w := if op == Ampersand then Bits.And(u, v) else if op == ArithmeticOr then Bits.Or(u, v) else Bits.Xor(u, v);
    assert r == Wrap32(w);
    hide Unsigned64, Wrap32, IntBit, InfixOperator;
    WrapSame(w);
    forall i | 0 <= i < 32
      ensures IntBit(r, i) == IntBit(w, i) && IntBit(u, i) == IntBit(a, i) && IntBit(v, i) == IntBit(b, i)
      ensures IntBit(Bits.And(u, v), i) == 1 <==> IntBit(u, i) + IntBit(v, i) == 2
      ensures IntBit(Bits.Or(u, v), i) == 1 <==> IntBit(u, i) + IntBit(v, i) > 0
      ensures IntBit(Bits.Xor(u, v), i) == 1 <==> IntBit(u, i) + IntBit(v, i) == 1
    {
      WrapBits(w, i, 32);
      Unsigned64Bits(a, i, 64);
      Unsigned64Bits(b, i, 64);
      BitwiseBits(u, v, i);
    }
  }

  lemma DivisionMeans(a: int, b: int)
    requires b != 0
    ensures Divides(a, b, TruncDiv(a, b), a - TruncDiv(a, b) * b)
  {
  }

  lemma QuotientMeans(op: Op, a: int, b: int)
    requires op in {Slash, Modulus} && Defined(op, a, b)
    ensures Means(op, a, b, InfixOperator(op, a, b))
  {
    hide TruncDiv, Divides, SameInt, Wrap32;
    var q := TruncDiv(a, b);
    DivisionMeans(a, b);
    WrapSame(q);
    WrapSame(a - q * b);
  }

  lemma ShiftMeans(op: Op, a: int, b: int)
    requires op in {ShiftLeft, ShiftRight} && Defined(op, a, b)
    ensures Means(op, a, b, InfixOperator(op, a, b))
  {
    hide SameInt, Wrap32, Bits.Exp2;
    Bits.Exp2Positive(b);
    var e := Bits.Exp2(b);
    WrapSame(a * e);
    WrapSame(a / e);
    assert Floored(a, e, a / e, a % e);
  }

  lemma SumMeans(op: Op, a: int, b: int)
    requires op in {Plus, Minus, Asterisk}
    ensures Means(op, a, b, InfixOperator(op, a, b))
  {
    hide SameInt, Wrap32;
    WrapSame(a + b);
    WrapSame(a - b);
    WrapSame(a * b);
  }

  lemma TruthMeans(op: Op, a: int, b: int)
    requires op !in {Plus, Minus, Asterisk, ShiftLeft, ShiftRight, Slash, Modulus}
    requires op !in {Ampersand, ArithmeticOr, ArithmeticExor}
    ensures Means(op, a, b, InfixOperator(op, a, b))
  { }

  /** Every infix operator computes what C says, wherever C defines it. */
  lemma OperatorMeans(op: Op, a: int, b: int)
    requires op in {Slash, Modulus} ==> b != 0 && !(a == -0x8000_0000_0000_0000 && b == -1)
    requires op in {ShiftLeft, ShiftRight} ==> 0 <= b < 64
    ensures Defined(op, a, b) && Means(op, a, b, InfixOperator(op, a, b))
  {
    hide Means, InfixOperator;
    match op
    case Ampersand | ArithmeticOr | ArithmeticExor => BitwiseMeans(op, a, b);
    case Slash | Modulus => QuotientMeans(op, a, b);
    case ShiftLeft | ShiftRight => ShiftMeans(op, a, b);
    case Plus | Minus | Asterisk => SumMeans(op, a, b);
    case _ => TruthMeans(op, a, b);
  }

  /** Elsewhere the source traps. */
  lemma UndefinedExactly(op: Op, a: int, b: int)
    ensures !Defined(op, a, b) <==>
            || (op in {Slash, Modulus} && (b == 0 || (a == -0x8000_0000_0000_0000 && b == -1)))
            || (op in {ShiftLeft, ShiftRight} && !(0 <= b < 64))
  { }

  /** The prefix operators. */
  lemma PrefixMeans(x: int)
    ensures SameInt(PrefixOperator(Plus, x), x) && SameInt(PrefixOperator(Minus, x), -x)
    ensures PrefixOperator(UnaryNot, x) == if x == 0 then 1 else 0
    ensures forall i | 0 <= i < 32 :: IntBit(PrefixOperator(UnaryExor, x), i) == 1 - IntBit(x, i)
  {
    hide Wrap32, SameInt;
    WrapSame(x);
    WrapSame(-x);
    hide IntBit;
    forall i | 0 <= i < 32 ensures IntBit(Wrap32(-x - 1), i) == 1 - IntBit(x, i) {
      WrapBits(-x - 1, i, 32);
      ComplementBit(x, i);
    }
  }

  lemma ComplementBit(x: int, i: nat)
    ensures IntBit(-x - 1, i) == 1 - IntBit(x, i)
  {
    hide Bits.Exp2;
    var e := Bits.Exp2(i);
    Bits.Exp2Positive(i);
    var q, m := x / e, x % e;
    assert -x - 1 == (-q - 1) * e + (e - 1 - m) by { assert (-q - 1) * e == -(q * e) - e; }
    Bits.DivUnique(-x - 1, e, -q - 1, e - 1 - m);
  }

  /** && and || look at their right side only if the left one does not decide, and their value is 0 or 1. */
  lemma ShortCircuit(l: Expr, r: Expr, env: string -> int)
    requires Eval(l, env).Meaning?
    ensures var a, b, both := Eval(l, env).value, Eval(r, env), Eval(Infixed(LogicalAnd, l, r), env);
            if a == 0 then both.Meaning? && both.value == 0
            else (both.Meaning? <==> b.Meaning?) && (b.Meaning? ==> both.value == if b.value == 0 then 0 else 1)
    ensures var a, b, either := Eval(l, env).value, Eval(r, env), Eval(Infixed(LogicalOr, l, r), env);
            if a != 0 then either.Meaning? && either.value == 1
            else (either.Meaning? <==> b.Meaning?) && (b.Meaning? ==> either.value == if b.value == 0 then 0 else 1)
  { }

  /** All other operators are applied to the values of both sides, brackets change nothing. */
  lemma EvalApplies(op: Op, l: Expr, r: Expr, env: string -> int)
    requires op !in {LogicalAnd, LogicalOr} && Eval(l, env).Meaning? && Eval(r, env).Meaning?
    ensures var a, b, both := Eval(l, env).value, Eval(r, env).value, Eval(Infixed(op, l, r), env);
            (both.Meaning? <==> Defined(op, a, b)) && (both.Meaning? ==> Means(op, a, b, both.value))
    ensures Eval(Bracketed(l), env) == Eval(l, env)
  {
    hide Means, InfixOperator;
    var a, b := Eval(l, env).value, Eval(r, env).value;
    UndefinedExactly(op, a, b);
    if Defined(op, a, b) {
      OperatorMeans(op, a, b);
    }
  }
}
