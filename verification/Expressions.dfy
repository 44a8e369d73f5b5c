/** The two precedence-climbing expression engines, on token sequences: the
    assembler's evaluates while it parses, the monitor's builds a tree that is
    evaluated afterwards. */
module Expressions {
  import opened Options
  import opened Powers
  import opened BitOps

  datatype UnaryOperator = UPlus | UMinus | UNot

  datatype BinaryOperator = Add | Subtract | Multiply | Divide | Remainder
                          | ShlOp | ShrOp | AndOp | XorOp | OrOp

  datatype Token = Literal(value: int) | Symbol(name: string)
                 | Plus | Minus | Star | Slash | Percent | ShiftLeft | ShiftRight
                 | Ampersand | Caret | Pipe | Tilde | LeftParen | RightParen | Range

  datatype Tree = Number(number: int) | Name(text: string)
                | Unary(unary: UnaryOperator, operand: Tree)
                | Binary(operator: BinaryOperator, left: Tree, right: Tree)

  type Symbols = map<string, int>

  // ---- 128-bit arithmetic ----

  const TWO_127: int := 0x8000_0000_0000_0000_0000_0000_0000_0000
  const TWO_128: int := 0x1_0000_0000_0000_0000_0000_0000_0000_0000

  predicate IsI128(x: int) { -TWO_127 <= x < TWO_127 }

  function Checked(x: int): Option<int> { if IsI128(x) then Some(x) else None }

  /** The two's complement bits of a number, and back. */
  function Bits(x: int): nat { x % TWO_128 }

  function FromBits(b: nat): int { if b < TWO_127 then b else b - TWO_128 }

  /** Division truncating toward zero. */
  function Quotient(a: int, b: int): int
    requires b != 0
  {
    if a >= 0 then a / b else -((-a) / b)
  }

  function Modulus(a: int, b: int): int
    requires b != 0
  {
    if a >= 0 then a % b else -((-a) % b)
  }

  function CheckedShl(a: int, n: nat): Option<int>
  {
    if n < 128 then Some(FromBits(Low(Shl(Bits(a), n), 128))) else None
  }

  function ArithmeticShr(a: int, n: nat): int
  {
    if a >= 0 then Shr(a, n) else -1 - Shr(-a - 1, n)
  }

  function CheckedShr(a: int, n: nat): Option<int>
  {
    if n < 128 then Some(ArithmeticShr(a, n)) else None
  }

  function ToU32(x: int): Option<nat>
  {
    if 0 <= x < 0x1_0000_0000 then Some(x) else None
  }

  /** Division truncates: the remainder has the dividend's sign and is smaller than the divisor. */
  lemma DivisionTruncates(a: int, b: int)
    requires b != 0
    ensures a == b * Quotient(a, b) + Modulus(a, b)
    ensures if b > 0 then -b < Modulus(a, b) < b else b < Modulus(a, b) < -b
    ensures if a >= 0 then Modulus(a, b) >= 0 else Modulus(a, b) <= 0
  {
    if a < 0 {
      assert -a == b * ((-a) / b) + (-a) % b;
      assert b * -((-a) / b) == -(b * ((-a) / b));
    }
  }

  /** Shifting right rounds toward minus infinity. */
  lemma ShiftRightFloors(a: int, n: nat)
    ensures ArithmeticShr(a, n) * Pow2(n) <= a < (ArithmeticShr(a, n) + 1) * Pow2(n)
  {
    hide Shl, Shr, Low, Pow2;
    var m: nat := if a >= 0 then a else -a - 1;
    var q := Shr(m, n);
    Powers.Divide(m, n);
    ShlIsProduct(q, n);
    assert (q + 1) * Pow2(n) == q * Pow2(n) + Pow2(n);
    assert (-1 - q) * Pow2(n) == -((q + 1) * Pow2(n));
    assert (-1 - q + 1) * Pow2(n) == -(q * Pow2(n));
  }

  // ---- the assembler's engine ----

  function TokenOperator(token: Token): Option<BinaryOperator>
  {
    match token
    case Plus => Some(Add) case Minus => Some(Subtract) case Star => Some(Multiply)
    case Slash => Some(Divide) case Percent => Some(Remainder)
    case ShiftLeft => Some(ShlOp) case ShiftRight => Some(ShrOp)
    case Ampersand => Some(AndOp) case Caret => Some(XorOp) case Pipe => Some(OrOp)
    case _ => None
  }

  function BindingPower(operator: BinaryOperator): (nat, nat)
  {
    match operator
    case OrOp => (1, 2)
    case XorOp => (3, 4)
    case AndOp => (5, 6)
    case ShlOp => (7, 8) case ShrOp => (7, 8)
    case Add => (9, 10) case Subtract => (9, 10)
    case Multiply => (11, 12) case Divide => (11, 12) case Remainder => (11, 12)
  }

  function Apply(operator: BinaryOperator, left: int, right: int): Option<int>
  {
    match operator
    case Add => Checked(left + right)
    case Subtract => Checked(left - right)
    case Multiply => Checked(left * right)
    case Divide => if right == 0 then None else Checked(Quotient(left, right))
    case Remainder => if right == 0 || (left == -TWO_127 && right == -1) then None else Some(Modulus(left, right))
    case AndOp => Some(FromBits(BitAnd(Bits(left), Bits(right))))
    case XorOp => Some(FromBits(BitXor(Bits(left), Bits(right))))
    case OrOp => Some(FromBits(BitOr(Bits(left), Bits(right))))
    case ShlOp => (match ToU32(right) case Some(n) => CheckedShl(left, n) case None => None)
    case ShrOp => (match ToU32(right) case Some(n) => CheckedShr(left, n) case None => None)
  }

  /** A result and the tokens after it. */
  datatype Parsed<+T> = Fail | Done(value: T, rest: seq<Token>)

  ghost predicate Suffix(rest: seq<Token>, tokens: seq<Token>)
  {
    |rest| <= |tokens| && rest == tokens[|tokens| - |rest|..]
  }

  lemma SuffixThrough(a: seq<Token>, b: seq<Token>, tokens: seq<Token>)
    requires Suffix(a, b) && tokens != [] && Suffix(b, tokens[1..])
    ensures Suffix(a, tokens) && |a| < |tokens|
  {
    assert b == tokens[|tokens| - |b|..];
  }

  /** What follows a suffix of the tokens after the first is a suffix too. */
  lemma SuffixAfterFirst(tokens: seq<Token>)
    requires tokens != []
    ensures Suffix(tokens[1..], tokens)
    ensures forall rest :: Suffix(rest, tokens[1..]) ==> |rest| < |tokens| && Suffix(rest, tokens)
    ensures forall rest :: Suffix(rest, tokens[1..]) && rest != [] ==> Suffix(rest[1..], tokens)
  {
  }

  function EvalExpression(tokens: seq<Token>, symbols: Symbols, minimum: nat): (r: Parsed<int>)
    ensures r.Done? ==> |r.rest| < |tokens| && Suffix(r.rest, tokens)
    decreases |tokens|, 2
  {
    match EvalPrefix(tokens, symbols)
    case Fail => Fail
    case Done(left, rest) => EvalLoop(left, rest, symbols, minimum)
  }

  function EvalLoop(left: int, tokens: seq<Token>, symbols: Symbols, minimum: nat): (r: Parsed<int>)
    ensures r.Done? ==> Suffix(r.rest, tokens)
    decreases |tokens|, 1
  {
    if tokens == [] || TokenOperator(tokens[0]).None? then Done(left, tokens)
    else
      var operator := TokenOperator(tokens[0]).value;
      var (leftPower, rightPower) := BindingPower(operator);
      if leftPower < minimum then Done(left, tokens)
      else match EvalExpression(tokens[1..], symbols, rightPower)
        case Fail => Fail
        case Done(right, rest) =>
          match Apply(operator, left, right)
          case None => Fail
          case Some(value) =>
            var result := EvalLoop(value, rest, symbols, minimum);
            assert result.Done? ==> Suffix(result.rest, tokens) by {
              if result.Done? { SuffixThrough(result.rest, rest, tokens); }
            }
            result
  }

  function EvalPrefix(tokens: seq<Token>, symbols: Symbols): (r: Parsed<int>)
    ensures r.Done? ==> |r.rest| < |tokens| && Suffix(r.rest, tokens)
    decreases |tokens|, 0
  {
    if tokens == [] then Fail
    else
      hide Suffix;
      SuffixAfterFirst(tokens);
      match tokens[0]
      case Plus => EvalPrefix(tokens[1..], symbols)
      case Minus =>
        (match EvalPrefix(tokens[1..], symbols)
         case Fail => Fail
         case Done(value, rest) => match Checked(-value) case None => Fail case Some(v) => Done(v, rest))
      case Tilde =>
        (match EvalPrefix(tokens[1..], symbols) case Fail => Fail case Done(value, rest) => Done(-value - 1, rest))
      case LeftParen =>
        (match EvalExpression(tokens[1..], symbols, 0)
         case Fail => Fail
         case Done(value, rest) => if rest != [] && rest[0] == RightParen then Done(value, rest[1..]) else Fail)
      case Literal(value) => Done(value, tokens[1..])
      case Symbol(name) => if name in symbols then Done(symbols[name], tokens[1..]) else Fail
      case _ => Fail
  }

  /** A whole operand, evaluated as it is parsed. */
  function EvaluateText(tokens: seq<Token>, symbols: Symbols): Option<int>
  {
    match EvalExpression(tokens, symbols, 0)
    case Done(value, rest) => if rest == [] then Some(value) else None
    case Fail => None
  }

  // ---- the monitor's engine ----

  function Precedence(operator: BinaryOperator): nat
  {
    match operator
    case OrOp => 1
    case XorOp => 2
    case AndOp => 3
    case ShlOp => 4 case ShrOp => 4
    case Add => 5 case Subtract => 5
    case Multiply => 6 case Divide => 6 case Remainder => 6
  }

  function TreeExpression(tokens: seq<Token>, minimum: nat): (r: Parsed<Tree>)
    ensures r.Done? ==> |r.rest| < |tokens| && Suffix(r.rest, tokens)
    decreases |tokens|, 2
  {
    match TreeUnary(tokens)
    case Fail => Fail
    case Done(left, rest) => TreeLoop(left, rest, minimum)
  }

  function TreeLoop(left: Tree, tokens: seq<Token>, minimum: nat): (r: Parsed<Tree>)
    ensures r.Done? ==> Suffix(r.rest, tokens)
    decreases |tokens|, 1
  {
    if tokens == [] || TokenOperator(tokens[0]).None? then Done(left, tokens)
    else
      var operator := TokenOperator(tokens[0]).value;
      if Precedence(operator) < minimum then Done(left, tokens)
      else match TreeExpression(tokens[1..], Precedence(operator) + 1)
        case Fail => Fail
        case Done(right, rest) =>
          var result := TreeLoop(Binary(operator, left, right), rest, minimum);
          assert result.Done? ==> Suffix(result.rest, tokens) by {
            if result.Done? { SuffixThrough(result.rest, rest, tokens); }
          }
          result
  }

  function TokenUnary(token: Token): Option<UnaryOperator>
  {
    match token
    case Plus => Some(UPlus)
    case Minus => Some(UMinus)
    case Tilde => Some(UNot)
    case _ => None
  }

  function TreeUnary(tokens: seq<Token>): (r: Parsed<Tree>)
    ensures r.Done? ==> |r.rest| < |tokens| && Suffix(r.rest, tokens)
    decreases |tokens|, 0
  {
    if tokens == [] then Fail
    else
      hide Suffix;
      SuffixAfterFirst(tokens);
      if TokenUnary(tokens[0]).Some? then
        match TreeUnary(tokens[1..])
        case Fail => Fail
        case Done(operand, rest) => Done(Unary(TokenUnary(tokens[0]).value, operand), rest)
      else match tokens[0]
        case Literal(value) => Done(Number(value), tokens[1..])
        case Symbol(name) => Done(Name(name), tokens[1..])
        case LeftParen =>
          (match TreeExpression(tokens[1..], 0)
           case Fail => Fail
           case Done(tree, rest) => if rest != [] && rest[0] == RightParen then Done(tree, rest[1..]) else Fail)
        case _ => Fail
  }

  function ParseText(tokens: seq<Token>): Option<Tree>
  {
    match TreeExpression(tokens, 0)
    case Done(tree, rest) => if rest == [] then Some(tree) else None
    case Fail => None
  }

  function ShiftLeft128(left: int, right: int): Option<int>
  {
    match ToU32(right)
    case Some(n) => if n < 128 then CheckedShl(left, n) else None
    case None => None
  }

  function ShiftRight128(left: int, right: int): Option<int>
  {
    match ToU32(right)
    case Some(n) => if n < 128 then Some(ArithmeticShr(left, n)) else None
    case None => None
  }

  function EvaluateBinary(operator: BinaryOperator, left: int, right: int): Option<int>
  {
    match operator
    case Add => Checked(left + right)
    case Subtract => Checked(left - right)
    case Multiply => Checked(left * right)
    case Divide => if right == 0 then None else Checked(Quotient(left, right))
    case Remainder => if right == 0 || (left == -TWO_127 && right == -1) then None else Some(Modulus(left, right))
    case ShlOp => ShiftLeft128(left, right)
    case ShrOp => ShiftRight128(left, right)
    case AndOp => Some(FromBits(BitAnd(Bits(left), Bits(right))))
    case XorOp => Some(FromBits(BitXor(Bits(left), Bits(right))))
    case OrOp => Some(FromBits(BitOr(Bits(left), Bits(right))))
  }

  function EvaluateTree(tree: Tree, symbols: Symbols): Option<int>
  {
    match tree
    case Number(value) => Some(value)
    case Name(name) => if name in symbols then Some(symbols[name]) else None
    case Unary(operator, operand) =>
      (match EvaluateTree(operand, symbols)
       case None => None
       case Some(value) =>
         match operator
         case UPlus => Some(value)
         case UMinus => Checked(-value)
         case UNot => Some(-value - 1))
    case Binary(operator, left, right) =>
      (match EvaluateTree(left, symbols)
       case None => None
       case Some(l) =>
         match EvaluateTree(right, symbols)
         case None => None
         case Some(r) => EvaluateBinary(operator, l, r))
  }

  // ---- the engines agree ----

  /** The least binding power that stands for a least precedence. */
  function Power(minimum: nat): nat
  {
    if minimum == 0 then 0 else 2 * (minimum - 1)
  }

  lemma SameOperators(operator: BinaryOperator, left: int, right: int)
    ensures Apply(operator, left, right) == EvaluateBinary(operator, left, right)
    ensures BindingPower(operator) == (2 * Precedence(operator) - 1, Power(Precedence(operator) + 1))
  {
    hide BitAnd, BitOr, BitXor, Low, Shl, Shr, Bits, FromBits, Quotient, Modulus;
  }

  /** Evaluating while parsing is parsing, then evaluating. */
  function ThenEvaluate(parsed: Parsed<Tree>, symbols: Symbols): Parsed<int>
  {
    match parsed
    case Fail => Fail
    case Done(tree, rest) =>
      match EvaluateTree(tree, symbols) case None => Fail case Some(value) => Done(value, rest)
  }

  lemma {:induction false} ExpressionsAgree(tokens: seq<Token>, symbols: Symbols, minimum: nat)
    ensures EvalExpression(tokens, symbols, Power(minimum)) == ThenEvaluate(TreeExpression(tokens, minimum), symbols)
    decreases |tokens|, 2
  {
    PrefixesAgree(tokens, symbols);
    match TreeUnary(tokens) {
      case Fail =>
      case Done(left, rest) => LoopsAgree(left, rest, symbols, minimum);
    }
  }

  lemma {:induction false} LoopsAgree(left: Tree, tokens: seq<Token>, symbols: Symbols, minimum: nat)
    ensures match EvaluateTree(left, symbols)
            case Some(value) =>
              EvalLoop(value, tokens, symbols, Power(minimum)) == ThenEvaluate(TreeLoop(left, tokens, minimum), symbols)
            case None => ThenEvaluate(TreeLoop(left, tokens, minimum), symbols) == Fail
    decreases |tokens|, 1
  {
    hide Apply, EvaluateBinary, EvalExpression, TreeExpression, EvaluateTree, Suffix;
    if tokens != [] && TokenOperator(tokens[0]).Some? {
      var operator := TokenOperator(tokens[0]).value;
      var precedence := Precedence(operator);
      SameOperators(operator, 0, 0);
      if precedence >= minimum {
        ExpressionsAgree(tokens[1..], symbols, precedence + 1);
        match TreeExpression(tokens[1..], precedence + 1) {
          case Fail =>
          case Done(right, rest) =>
            BinaryNode(operator, left, right, symbols);
            LoopsAgree(Binary(operator, left, right), rest, symbols, minimum);
            if EvaluateTree(left, symbols).Some? && EvaluateTree(right, symbols).Some? {
              SameOperators(operator, EvaluateTree(left, symbols).value, EvaluateTree(right, symbols).value);
            }
        }
      }
    }
  }

  lemma BinaryNode(operator: BinaryOperator, left: Tree, right: Tree, symbols: Symbols)
    ensures EvaluateTree(Binary(operator, left, right), symbols) ==
            match EvaluateTree(left, symbols)
            case None => None
            case Some(l) => match EvaluateTree(right, symbols) case None => None case Some(r) => EvaluateBinary(operator, l, r)
  {
    hide EvaluateBinary;
  }

  lemma UnaryNodes(symbols: Symbols)
    ensures forall t :: EvaluateTree(Unary(UPlus, t), symbols) == EvaluateTree(t, symbols)
    ensures forall t :: EvaluateTree(Unary(UMinus, t), symbols) ==
              match EvaluateTree(t, symbols) case None => None case Some(v) => Checked(-v)
    ensures forall t :: EvaluateTree(Unary(UNot, t), symbols) ==
              match EvaluateTree(t, symbols) case None => None case Some(v) => Some(-v - 1)
    ensures forall v :: EvaluateTree(Number(v), symbols) == Some(v)
    ensures forall n :: EvaluateTree(Name(n), symbols) == if n in symbols then Some(symbols[n]) else None
  {
  }

  lemma {:induction false} PrefixesAgree(tokens: seq<Token>, symbols: Symbols)
    ensures EvalPrefix(tokens, symbols) == ThenEvaluate(TreeUnary(tokens), symbols)
    decreases |tokens|, 0
  {
    hide EvalExpression, TreeExpression, EvaluateTree, Suffix;
    UnaryNodes(symbols);
    if tokens != [] {
      match tokens[0] {
        case Plus => PrefixesAgree(tokens[1..], symbols);
        case Minus => PrefixesAgree(tokens[1..], symbols);
        case Tilde => PrefixesAgree(tokens[1..], symbols);
        case LeftParen => ExpressionsAgree(tokens[1..], symbols, 0);
        case _ =>
      }
    }
  }

  /** On every token sequence and symbol table, the evaluating engine yields v exactly when the
      building engine accepts and its tree evaluates to v. */
  lemma EnginesAgree(tokens: seq<Token>, symbols: Symbols)
    ensures EvaluateText(tokens, symbols) ==
            match ParseText(tokens) case None => None case Some(tree) => EvaluateTree(tree, symbols)
  {
    ExpressionsAgree(tokens, symbols, 0);
  }

  /** More symbols never change a value that was already defined. */
  lemma {:induction false} MoreSymbolsTree(tree: Tree, symbols: Symbols, more: Symbols)
    requires EvaluateTree(tree, symbols).Some?
    requires forall name :: name in symbols ==> name in more && more[name] == symbols[name]
    ensures EvaluateTree(tree, more) == EvaluateTree(tree, symbols)
  {
    hide EvaluateBinary;
    match tree {
      case Number(_) =>
      case Name(_) =>
      case Unary(_, operand) => MoreSymbolsTree(operand, symbols, more);
      case Binary(_, left, right) =>
        MoreSymbolsTree(left, symbols, more);
        MoreSymbolsTree(right, symbols, more);
    }
  }

  lemma MoreSymbols(tokens: seq<Token>, symbols: Symbols, more: Symbols)
    requires EvaluateText(tokens, symbols).Some?
    requires forall name :: name in symbols ==> name in more && more[name] == symbols[name]
    ensures EvaluateText(tokens, more) == EvaluateText(tokens, symbols)
  {
    hide EvaluateText, EvaluateTree, ParseText;
    EnginesAgree(tokens, symbols);
    EnginesAgree(tokens, more);
    MoreSymbolsTree(ParseText(tokens).value, symbols, more);
  }

  // ---- printing and parsing back ----

  function OperatorToken(operator: BinaryOperator): Token
  {
    match operator
    case Add => Plus case Subtract => Minus case Multiply => Star case Divide => Slash
    case Remainder => Percent case ShlOp => ShiftLeft case ShrOp => ShiftRight
    case AndOp => Ampersand case XorOp => Caret case OrOp => Pipe
  }

  function UnaryToken(operator: UnaryOperator): Token
  {
    match operator case UPlus => Plus case UMinus => Minus case UNot => Tilde
  }

  /** A tree in tokens, with parentheses where an operator binds less tightly than `minimum`. */
  function Print(tree: Tree, minimum: nat): seq<Token>
    decreases tree, minimum
  {
    match tree
    case Number(value) => [Literal(value)]
    case Name(name) => [Symbol(name)]
    case Unary(operator, operand) => [UnaryToken(operator)] + Print(operand, 7)
    case Binary(operator, left, right) =>
      var p := Precedence(operator);
      var plain := Print(left, p) + [OperatorToken(operator)] + Print(right, p + 1);
      if p < minimum then [LeftParen] + plain + [RightParen] else plain
  }

  /** The tokens after do not continue an expression printed at this level. */
  ghost predicate Stops(after: seq<Token>, level: nat)
  {
    after != [] && TokenOperator(after[0]).Some? ==> Precedence(TokenOperator(after[0]).value) <= level
  }

  /** Nothing that continues an expression at this level follows. */
  lemma StopsLoop(tree: Tree, after: seq<Token>, minimum: nat)
    requires after == [] || TokenOperator(after[0]).None? || Precedence(TokenOperator(after[0]).value) < minimum
    ensures TreeLoop(tree, after, minimum) == Done(tree, after)
  {
    hide TreeExpression, Suffix;
  }

  /** An operand printed for a unary position is parsed back whole. */
  lemma {:induction false} PrintedOperand(tree: Tree, after: seq<Token>)
    ensures TreeUnary(Print(tree, 7) + after) == Done(tree, after)
    decreases tree, 1
  {
    hide TreeExpression, TreeLoop, Suffix, PlainTokens;
    var tokens := Print(tree, 7) + after;
    match tree {
      case Number(value) => assert tokens[1..] == after;
      case Name(name) => assert tokens[1..] == after;
      case Unary(operator, operand) =>
        assert tokens[1..] == Print(operand, 7) + after;
        PrintedOperand(operand, after);
      case Binary(operator, left, right) =>
        var inner := PlainTokens(operator, left, right) + ([RightParen] + after);
        PrintedPlain(operator, left, right, [RightParen] + after, 0);
        StopsLoop(tree, [RightParen] + after, 0);
        PrintedParentheses(tree, after);
        ParenthesesParse(inner, tree, after);
    }
  }

  lemma PrintedParentheses(tree: Tree, after: seq<Token>)
    requires tree.Binary?
    ensures Print(tree, 7) + after == [LeftParen] + (PlainTokens(tree.operator, tree.left, tree.right) + ([RightParen] + after))
  {
    assert Print(tree, 7) == [LeftParen] + PlainTokens(tree.operator, tree.left, tree.right) + [RightParen];
  }

  lemma ParenthesesParse(inner: seq<Token>, tree: Tree, after: seq<Token>)
    requires TreeExpression(inner, 0) == Done(tree, [RightParen] + after)
    ensures TreeUnary([LeftParen] + inner) == Done(tree, after)
  {
    hide TreeExpression, Suffix;
    assert ([LeftParen] + inner)[1..] == inner;
    assert ([RightParen] + after)[1..] == after;
  }

  function PlainTokens(operator: BinaryOperator, left: Tree, right: Tree): seq<Token>
  {
    Print(left, Precedence(operator)) + [OperatorToken(operator)] + Print(right, Precedence(operator) + 1)
  }

  /** Parsing a printed binary node, then going on with it as the left operand. */
  lemma {:induction false} PrintedPlain(operator: BinaryOperator, left: Tree, right: Tree, after: seq<Token>, minimum: nat)
    requires minimum <= Precedence(operator) && Stops(after, Precedence(operator))
    ensures TreeExpression(PlainTokens(operator, left, right) + after, minimum)
         == TreeLoop(Binary(operator, left, right), after, minimum)
    decreases Binary(operator, left, right), 0
  {
    hide Print, TreeExpression, TreeLoop, TreeUnary, Suffix;
    var p := Precedence(operator);
    var rest := [OperatorToken(operator)] + (Print(right, p + 1) + after);
    assert PlainTokens(operator, left, right) + after == Print(left, p) + rest;
    assert rest[0] == OperatorToken(operator) && rest[1..] == Print(right, p + 1) + after;
    assert TokenOperator(OperatorToken(operator)) == Some(operator);
    PrintedExpression(left, rest, p, minimum);
    PrintedExpression(right, after, p + 1, p + 1);
    StopsLoop(right, after, p + 1);
    LoopUnfolds(left, rest, minimum);
  }

  /** One turn of the loop. */
  lemma LoopUnfolds(left: Tree, tokens: seq<Token>, minimum: nat)
    requires tokens != [] && TokenOperator(tokens[0]).Some? && Precedence(TokenOperator(tokens[0]).value) >= minimum
    ensures TreeLoop(left, tokens, minimum) ==
            var operator := TokenOperator(tokens[0]).value;
            match TreeExpression(tokens[1..], Precedence(operator) + 1)
            case Fail => Fail
            case Done(right, rest) => TreeLoop(Binary(operator, left, right), rest, minimum)
  {
    hide TreeExpression, Suffix;
  }

  /** Printed at a level at least the parser's minimum, a tree is parsed back and parsing goes on. */
  lemma {:induction false} PrintedExpression(tree: Tree, after: seq<Token>, level: nat, minimum: nat)
    requires minimum <= level <= 7 && Stops(after, level)
    ensures TreeExpression(Print(tree, level) + after, minimum) == TreeLoop(tree, after, minimum)
    decreases tree, 2
  {
    hide TreeLoop, TreeUnary, Suffix;
    if tree.Binary? && Precedence(tree.operator) >= level {
      assert Print(tree, level) == PlainTokens(tree.operator, tree.left, tree.right);
      PrintedPlain(tree.operator, tree.left, tree.right, after, minimum);
    } else {
      assert Print(tree, level) == Print(tree, 7);
      PrintedOperand(tree, after);
    }
  }

  /** Printing any tree with the needed parentheses and parsing it gives the same tree. */
  lemma PrintThenParse(tree: Tree)
    ensures ParseText(Print(tree, 0)) == Some(tree)
  {
    hide Print;
    PrintedExpression(tree, [], 0, 0);
    assert Print(tree, 0) + [] == Print(tree, 0);
  }
}
