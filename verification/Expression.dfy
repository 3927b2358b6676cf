/** The operator-precedence evaluator of libjl777/expression.c: a shift-reduce loop over an explicit
    stack. Brackets raise the precedence of everything inside by 20, and IgnorePrecedence marks the
    right side of a decided && or || as not to be run. Values are integers, operands are literals and
    variables. */
module Expression {
  import Bits
  import Basics

  datatype Op =
    | LogicalOr | LogicalAnd | ArithmeticOr | ArithmeticExor | Ampersand | Equal | NotEqual
    | LessThan | GreaterThan | LessEqual | GreaterEqual | ShiftLeft | ShiftRight | Plus | Minus
    | Asterisk | Slash | Modulus | UnaryNot | UnaryExor

  /** End stands for every token that cannot continue an expression. */
  datatype Token = Operator(op: Op) | OpenBracket | CloseBracket | Literal(n: int) | Identifier(name: string) | End

  datatype Order = OrderPrefix | OrderInfix
  /** A node keeps its precedence in sixteen bits. */
  datatype Node = Value(n: int) | Pending(op: Op, order: Order, precedence: nat)

  /** What a run operator or a variable lookup was applied to. The operands of && and || are left out:
      they have no effect beyond their result. */
  datatype Event = Read(name: string) | Unary(op: Op, x: int) | Binary(op: Op, a: int, b: int) | Logical(op: Op)

  datatype Reason = EndOfExpression | OperatorNotExpected | ValueNotExpected | BracketsNotClosed
                  | InvalidExpression | PointerOperator | Undefined | Crash
  datatype Result<T> = Done(value: T) | Halted(reason: Reason)

  const BRACKET_PRECEDENCE: nat := 20
  const DEEP_PRECEDENCE: nat := 20_000

  // ----- the operator table -----

  function PrefixPrecedence(op: Op): nat {
    match op
    case Ampersand | Plus | Minus | Asterisk | UnaryNot | UnaryExor => 14
    case _ => 0
  }

  function InfixPrecedence(op: Op): nat {
    match op
    case LogicalOr => 4
    case LogicalAnd => 5
    case ArithmeticOr => 6
    case ArithmeticExor => 7
    case Ampersand => 8
    case Equal | NotEqual => 9
    case LessThan | GreaterThan | LessEqual | GreaterEqual => 10
    case ShiftLeft | ShiftRight => 11
    case Plus | Minus => 12
    case Asterisk | Slash | Modulus => 13
    case UnaryNot | UnaryExor => 0
  }

  predicate IsLogical(op: Op) { op == LogicalOr || op == LogicalAnd }

  // ----- operators on integers -----

  function Truth(b: bool): int { if b then 1 else 0 }

  /** The conversion to a 32-bit int that every pushed result goes through. */
  function Wrap32(x: int): int {
    var r := x % 0x1_0000_0000;
    if r < 0x8000_0000 then r else r - 0x1_0000_0000
  }

  function Unsigned64(x: int): nat { x % 0x1_0000_0000_0000_0000 }

  /** Division that truncates toward zero. */
  function TruncDiv(a: int, b: int): int
    requires b != 0
  {
    if b > 0 then Basics.Div(a, b) else -Basics.Div(a, -b)
  }

  /** Where the source language defines the operator: elsewhere a division traps. */
  predicate Defined(op: Op, a: int, b: int) {
    match op
    case Slash | Modulus => b != 0 && !(a == -0x8000_0000_0000_0000 && b == -1)
    case ShiftLeft | ShiftRight => 0 <= b < 64
    case _ => true
  }

  function InfixOperator(op: Op, a: int, b: int): int
    requires Defined(op, a, b)
  {
    match op
    case LogicalOr => Truth(a != 0 || b != 0)
    case LogicalAnd => Truth(a != 0 && b != 0)
    case ArithmeticOr => Wrap32(Bits.Or(Unsigned64(a), Unsigned64(b)))
    case ArithmeticExor => Wrap32(Bits.Xor(Unsigned64(a), Unsigned64(b)))
    case Ampersand => Wrap32(Bits.And(Unsigned64(a), Unsigned64(b)))
    case Equal => Truth(a == b)
    case NotEqual => Truth(a != b)
    case LessThan => Truth(a < b)
    case GreaterThan => Truth(a > b)
    case LessEqual => Truth(a <= b)
    case GreaterEqual => Truth(a >= b)
    case ShiftLeft => Wrap32(a * Bits.Exp2(b))
    case ShiftRight => Bits.Exp2Positive(b); Wrap32(a / Bits.Exp2(b))
    case Plus => Wrap32(a + b)
    case Minus => Wrap32(a - b)
    case Asterisk => Wrap32(a * b)
    case Slash => Wrap32(TruncDiv(a, b))
    case Modulus => Wrap32(a - TruncDiv(a, b) * b)
    case UnaryNot | UnaryExor => 0
  }

  predicate IsArithmeticPrefix(op: Op) { op in {Plus, Minus, UnaryNot, UnaryExor} }

  function PrefixOperator(op: Op, x: int): int {
    match op
    case Minus => Wrap32(-x)
    case UnaryNot => Truth(x == 0)
    case UnaryExor => Wrap32(-x - 1)
    case _ => Wrap32(x)
  }

  /** The value of the left side alone decides the operator. */
  predicate Decides(op: Op, left: int) { (op == LogicalOr && left != 0) || (op == LogicalAnd && left == 0) }

  function InfixEvent(op: Op, a: int, b: int): Event { if IsLogical(op) then Logical(op) else Binary(op, a, b) }

  // ----- the stack machine -----

  /** The top of the stack is its last element; ran lists what was run so far. */
  datatype Machine = Machine(stack: seq<Node>, ignore: nat, ran: seq<Event>) {
    function Push(node: Node): Machine { this.(stack := stack + [node]) }
  }

  function TurnedOff(found: int, ignore: nat): nat { if found <= ignore then DEEP_PRECEDENCE else ignore }

  /** Runs the operator below the top value, or puts 0 in its place. */
  function Reduce(m: Machine): (r: Result<Machine>)
    requires |m.stack| >= 2 && m.stack[|m.stack| - 1].Value? && m.stack[|m.stack| - 2].Pending?
    ensures r.Halted? ==> r.reason != EndOfExpression
  {
    var n := |m.stack|;
    var node, top := m.stack[n - 2], m.stack[n - 1].n;
    var found := node.precedence;
    match node.order
    case OrderPrefix =>
      if found < m.ignore then
        if !IsArithmeticPrefix(node.op) then Halted(PointerOperator)
        else
          Done(Machine(m.stack[..n - 2] + [Value(PrefixOperator(node.op, top))], TurnedOff(found, m.ignore),
                       m.ran + [Unary(node.op, top)]))
      else Done(Machine(m.stack[..n - 2] + [Value(0)], TurnedOff(found, m.ignore), m.ran))
    case OrderInfix =>
      if n < 3 || !m.stack[n - 3].Value? then Halted(Crash)
      else
        var bottom := m.stack[n - 3].n;
        if found <= m.ignore then
          if !Defined(node.op, bottom, top) then Halted(Undefined)
          else
            Done(Machine(m.stack[..n - 3] + [Value(InfixOperator(node.op, bottom, top))], TurnedOff(found, m.ignore),
                         m.ran + [InfixEvent(node.op, bottom, top)]))
        else
          Done(Machine(m.stack[..n - 3] + [Value(0)], TurnedOff(found, m.ignore), m.ran))
  }

  /** Reduces the top of the stack until no operator of at least the given precedence is left there. */
  function Collapse(m: Machine, precedence: nat): (r: Result<Machine>)
    ensures r.Halted? ==> r.reason != EndOfExpression
    decreases |m.stack|
  {
    var n := |m.stack|;
    if n < 2 then Done(m)
    else
      match m.stack[n - 1]
      case Pending(_, order, found) =>
        if found < precedence then Done(m)
        else if order == OrderInfix then Done(m.(ignore := DEEP_PRECEDENCE))
        else Halted(Crash)
      case Value(_) =>
        if m.stack[n - 2].Value? then (if precedence == 0 then Halted(Crash) else Done(m))
        else if m.stack[n - 2].precedence < precedence then Done(m)
        else
          match Reduce(m)
          case Halted(reason) => Halted(reason)
          case Done(m') => Collapse(m', precedence)
  }

  method ExpressionStackCollapse(m: Machine, precedence: nat) returns (r: Result<Machine>)
    ensures r == Collapse(m, precedence)
  {
    hide InfixOperator, PrefixOperator;
    var cur := m;
    var found: int := precedence;
    while |cur.stack| >= 2 && found >= precedence
      invariant Collapse(m, precedence) == if found >= precedence then Collapse(cur, precedence) else Done(cur)
      decreases |cur.stack|, found
    {
      var n := |cur.stack|;
      match cur.stack[n - 1]
      case Pending(_, order, p) =>
        found := p;
        if found >= precedence {
          if order == OrderInfix {
            found := -1;
            cur := cur.(ignore := TurnedOff(found, cur.ignore));
          } else {
            return Halted(Crash);
          }
        }
      case Value(_) =>
        found := if cur.stack[n - 2].Value? then 0 else cur.stack[n - 2].precedence;
        if found >= precedence {
          if cur.stack[n - 2].Value? {
            return Halted(Crash);
          }
          var next := Reduce(cur);
          if next.Halted? {
            return Halted(next.reason);
          }
          cur := next.value;
        }
    }
    return Done(cur);
  }

  // ----- the token loop -----

  /** precedence is that of the last operator or opening bracket read. */
  datatype Parser = Parser(machine: Machine, bracket: nat, precedence: nat, prefixState: bool)

  function Start(): Parser { Parser(Machine([], DEEP_PRECEDENCE, []), 0, 0, true) }

  /** What the sixteen-bit field of a node keeps of a precedence. */
  function Stored(precedence: nat): nat { precedence % 0x1_0000 }

  /** Collapses, then pushes an operator; a decided && or || starts ignoring its right side. */
  function Shift(ps: Parser, op: Op, order: Order, precedence: nat): Result<Parser> {
    match Collapse(ps.machine, precedence)
    case Halted(reason) => Halted(reason)
    case Done(m) =>
      if order == OrderPrefix then
        Done(ps.(machine := m.Push(Pending(op, order, Stored(precedence))), precedence := precedence))
      else if m.stack == [] || !m.stack[|m.stack| - 1].Value? then Halted(Crash)
      else
        var left := m.stack[|m.stack| - 1].n;
        var m' := if Decides(op, left) && m.ignore > precedence then m.(ignore := precedence) else m;
        Done(Parser(m'.Push(Pending(op, order, Stored(precedence))), ps.bracket, precedence, true))
  }

  function Step(ps: Parser, tok: Token, env: string -> int): Result<Parser> {
    match tok
    case End => Halted(EndOfExpression)
    case Literal(n) =>
      if !ps.prefixState then Halted(ValueNotExpected)
      else Done(ps.(machine := ps.machine.Push(Value(n)), prefixState := false))
    case Identifier(name) =>
      if !ps.prefixState then Halted(ValueNotExpected)
      else
        var m := ps.machine;
        var m1 := if ps.precedence < m.ignore then m.Push(Value(env(name))).(ran := m.ran + [Read(name)])
            else m.Push(Value(0));
        Done(ps.(machine := m1.(ignore := TurnedOff(ps.precedence, m.ignore)), prefixState := false))
    case OpenBracket =>
      if !ps.prefixState then Halted(OperatorNotExpected)
      else Done(ps.(precedence := ps.bracket + 15, bracket := ps.bracket + BRACKET_PRECEDENCE))
    case CloseBracket =>
      if ps.bracket < BRACKET_PRECEDENCE then Halted(EndOfExpression)
      else if ps.prefixState then Halted(OperatorNotExpected)
      else
        (match Collapse(ps.machine, ps.bracket)
         case Halted(reason) => Halted(reason)
         case Done(m) => Done(ps.(machine := m, bracket := ps.bracket - BRACKET_PRECEDENCE)))
    case Operator(op) =>
      if ps.prefixState then
        if PrefixPrecedence(op) == 0 then Halted(OperatorNotExpected)
        else Shift(ps, op, OrderPrefix, ps.bracket + PrefixPrecedence(op))
      else if InfixPrecedence(op) == 0 then Halted(OperatorNotExpected)
      else Shift(ps, op, OrderInfix, ps.bracket + InfixPrecedence(op))
  }

  /** found is false when there was no expression at all. */
  datatype Answer = Answer(found: bool, value: int, ran: seq<Event>, consumed: nat)

  function Finish(ps: Parser, consumed: nat): Result<Answer> {
    if ps.bracket > 0 then Halted(BracketsNotClosed)
    else
      match Collapse(ps.machine, 0)
      case Halted(reason) => Halted(reason)
      case Done(m) =>
        if m.stack == [] then Done(Answer(false, 0, m.ran, consumed))
        else if |m.stack| > 1 || !m.stack[0].Value? then Halted(InvalidExpression)
        else Done(Answer(true, m.stack[0].n, m.ran, consumed))
  }

  function ParseFrom(ps: Parser, tokens: seq<Token>, k: nat, env: string -> int): Result<Answer>
    requires k <= |tokens|
    decreases |tokens| - k
  {
    if k == |tokens| then Finish(ps, k)
    else
      match Step(ps, tokens[k], env)
      case Done(ps') => ParseFrom(ps', tokens, k + 1, env)
      case Halted(reason) => if reason == EndOfExpression then Finish(ps, k) else Halted(reason)
  }

  function Parse(tokens: seq<Token>, env: string -> int): Result<Answer> { ParseFrom(Start(), tokens, 0, env) }

  method ExpressionParse(tokens: seq<Token>, env: string -> int) returns (r: Result<Answer>)
    ensures r == Parse(tokens, env)
  {
    hide Collapse, Finish;
    var m, prefixState, done := Machine([], DEEP_PRECEDENCE, []), true, false;
    var bracket: nat, precedence: nat, k: nat := 0, 0, 0;
    while !done && k < |tokens|
      invariant k <= |tokens|
      invariant Parse(tokens, env) ==
                var ps := Parser(m, bracket, precedence, prefixState);
                if done then Finish(ps, k) else ParseFrom(ps, tokens, k, env)
      decreases |tokens| - k, !done
    {
      var tok := tokens[k];
      if tok.Operator? || tok.OpenBracket? || (tok.CloseBracket? && bracket >= BRACKET_PRECEDENCE) {
        if prefixState {
          if tok.OpenBracket? {
            precedence := bracket + 15;
            bracket := bracket + BRACKET_PRECEDENCE;
          } else if tok.CloseBracket? || PrefixPrecedence(tok.op) == 0 {
            return Halted(OperatorNotExpected);
          } else {
            precedence := bracket + PrefixPrecedence(tok.op);
            var r1 := ExpressionStackCollapse(m, precedence);
            if r1.Halted? {
              return Halted(r1.reason);
            }
            m := ExpressionStackPushOperator(r1.value, OrderPrefix, tok.op, precedence);
          }
        } else if tok.CloseBracket? {
          var r1 := ExpressionStackCollapse(m, bracket);
          if r1.Halted? {
            return Halted(r1.reason);
          }
          m, bracket := r1.value, bracket - BRACKET_PRECEDENCE;
        } else if tok.OpenBracket? || InfixPrecedence(tok.op) == 0 {
          return Halted(OperatorNotExpected);
        } else {
          precedence := bracket + InfixPrecedence(tok.op);
          var r1 := ExpressionStackCollapse(m, precedence);
          if r1.Halted? {
            return Halted(r1.reason);
          }
          m := r1.value;
          if m.stack == [] || !m.stack[|m.stack| - 1].Value? {
            return Halted(Crash);
          }
          if Decides(tok.op, m.stack[|m.stack| - 1].n) && m.ignore > precedence {
            m := m.(ignore := precedence);
          }
          m := ExpressionStackPushOperator(m, OrderInfix, tok.op, precedence);
          prefixState := true;
        }
        k := k + 1;
      } else if tok.Identifier? || tok.Literal? {
        if !prefixState {
          return Halted(ValueNotExpected);
        }
        if tok.Literal? {
          m := m.Push(Value(tok.n));
        } else {
          if precedence < m.ignore {
            m := m.Push(Value(env(tok.name))).(ran := m.ran + [Read(tok.name)]);
          } else {
            m := m.Push(Value(0));
          }
          if precedence <= m.ignore {
            m := m.(ignore := DEEP_PRECEDENCE);
          }
        }
        prefixState, k := false, k + 1;
      } else {
        done := true;
      }
    }
    r := FinishExpression(Parser(m, bracket, precedence, prefixState), k);
  }

  method ExpressionStackPushOperator(m: Machine, order: Order, op: Op, precedence: nat) returns (r: Machine)
    ensures r == m.Push(Pending(op, order, Stored(precedence)))
  {
    r := m.(stack := m.stack + [Pending(op, order, precedence % 0x1_0000)]);
  }

  method FinishExpression(ps: Parser, k: nat) returns (r: Result<Answer>)
    ensures r == Finish(ps, k)
  {
    hide Collapse;
    if ps.bracket > 0 {
      return Halted(BracketsNotClosed);
    }
    var last := ExpressionStackCollapse(ps.machine, 0);
    if last.Halted? {
      return Halted(last.reason);
    }
    var stack := last.value.stack;
    if stack == [] {
      return Done(Answer(false, 0, last.value.ran, k));
    }
    if |stack| > 1 || !stack[0].Value? {
      return Halted(InvalidExpression);
    }
    return Done(Answer(true, stack[0].n, last.value.ran, k));
  }
}
