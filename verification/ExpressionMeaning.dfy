/** The values of expressions: each operator on 128-bit two's complement numbers, trees, and texts. */
module ExpressionMeaning {
  import opened Options
  import opened Powers
  import opened BitOps
  import opened Expressions
  import opened ExpressionGrammar

  // ---- two's complement ----

  /** The numbers of 128 bits. */
  predicate InRange(x: int)
  {
    0 - Pow2(127) <= x < Pow2(127)
  }

  lemma RangeIsI128(x: int)
    ensures InRange(x) <==> IsI128(x)
    ensures Pow2(127) == TWO_127 && Pow2(128) == TWO_128
  {
    hide Pow2;
    Pow2Wide();
    Pow2Next(127);
  }

  /** Bit k of a number in two's complement, which goes on for ever to the left. */
  predicate TwosBit(x: int, k: nat)
    decreases k
  {
    if k == 0 then x % 2 == 1 else TwosBit(x / 2, k - 1)
  }

  // ---- what the operators give ----

  /** q and r are quotient and remainder of a by b, truncated toward zero. */
  predicate Truncates(a: int, b: int, q: int, r: int)
  {
    a == b * q + r && (if b > 0 then -b < r < b else b < r < -b) && (if a >= 0 then r >= 0 else r <= 0)
  }

  ghost predicate OperatorMeans(operator: BinaryOperator, a: int, b: int, v: int)
  {
    match operator
    case Add => v == a + b && InRange(v)
    case Subtract => v == a - b && InRange(v)
    case Multiply => v == a * b && InRange(v)
    case Divide => b != 0 && InRange(v) && exists r :: Truncates(a, b, v, r)
    case Remainder => b != 0 && exists q :: InRange(q) && Truncates(a, b, q, v)
    case AndOp => InRange(v) && forall k: nat :: k < 128 ==> (TwosBit(v, k) <==> TwosBit(a, k) && TwosBit(b, k))
    case XorOp => InRange(v) && forall k: nat :: k < 128 ==> (TwosBit(v, k) <==> TwosBit(a, k) != TwosBit(b, k))
    case OrOp => InRange(v) && forall k: nat :: k < 128 ==> (TwosBit(v, k) <==> TwosBit(a, k) || TwosBit(b, k))
    case ShlOp => 0 <= b < 128 && InRange(v) && (v - a * Pow2(b)) % Pow2(128) == 0
    case ShrOp => 0 <= b < 128 && v * Pow2(b) <= a < (v + 1) * Pow2(b)
  }

  // ---- bits ----

  lemma {:induction false} NaturalBits(n: nat, k: nat)
    ensures TwosBit(n, k) == Bit(n, k)
    decreases k
  {
    if k > 0 { NaturalBits(n / 2, k - 1); }
  }

  lemma {:induction false} HigherBit(x: int, n: nat, k: nat)
    requires k < n
    ensures TwosBit(x + Pow2(n), k) == TwosBit(x, k)
    decreases k
  {
    if k > 0 {
      HigherBit(x / 2, n - 1, k - 1);
      assert (x + Pow2(n)) / 2 == x / 2 + Pow2(n - 1);
    }
  }

  /** The low 128 bits of a number in range, as a natural number. */
  lemma BitsOf(x: int, k: nat)
    requires InRange(x) && k < 128
    ensures Bit(Bits(x), k) == TwosBit(x, k)
  {
    hide Pow2, Shr;
    RangeIsI128(x);
    NaturalBits(Bits(x), k);
    HigherBit(x, 128, k);
    assert Bits(x) == if x >= 0 then x else x + TWO_128;
  }

  lemma FromBitsOf(b: nat, k: nat)
    requires b < Pow2(128) && k < 128
    ensures InRange(FromBits(b)) && TwosBit(FromBits(b), k) == Bit(b, k)
  {
    hide Pow2, Shr, TwosBit, Bit;
    RangeIsI128(FromBits(b));
    NaturalBits(b, k);
    HigherBit(FromBits(b), 128, k);
  }

  lemma BitsFit(x: int)
    ensures Bits(x) < Pow2(128)
  {
    hide Pow2;
    RangeIsI128(0);
  }

  lemma BitwiseIs(operator: BinaryOperator, a: int, b: int)
    requires InRange(a) && InRange(b) && (operator == AndOp || operator == XorOp || operator == OrOp)
    ensures EvaluateBinary(operator, a, b).Some? && OperatorMeans(operator, a, b, EvaluateBinary(operator, a, b).value)
  {
    hide Pow2, Shr, BitAnd, BitOr, BitXor, Bits, FromBits, Bit, TwosBit;
    var x, y := Bits(a), Bits(b);
    BitsFit(a);
    BitsFit(b);
    AndBound(x, y);
    OrBound(x, y, 128);
    XorBound(x, y, 128);
    var bits := if operator == AndOp then BitAnd(x, y) else if operator == XorOp then BitXor(x, y) else BitOr(x, y);
    FromBitsOf(bits, 0);
    forall k: nat | k < 128
      ensures TwosBit(FromBits(bits), k) ==
              if operator == AndOp then TwosBit(a, k) && TwosBit(b, k)
              else if operator == XorOp then TwosBit(a, k) != TwosBit(b, k)
              else TwosBit(a, k) || TwosBit(b, k)
    {
      FromBitsOf(bits, k);
      BitsOf(a, k);
      BitsOf(b, k);
      AndBitIs(x, y, k);
      OrBit(x, y, k);
      XorBit(x, y, k);
    }
  }

  /** Numbers in range with the same 128 bits are the same. */
  lemma BitsDetermine(v: int, w: int)
    requires InRange(v) && InRange(w) && forall k: nat :: k < 128 ==> TwosBit(v, k) == TwosBit(w, k)
    ensures v == w
  {
    hide Pow2, Shr, Bit, TwosBit;
    RangeIsI128(v);
    RangeIsI128(w);
    BitsFit(v);
    BitsFit(w);
    forall k: nat | k < 128 ensures Bit(Bits(v), k) == Bit(Bits(w), k) {
      BitsOf(v, k);
      BitsOf(w, k);
    }
    SameBits(Bits(v), Bits(w), 128);
  }

  // ---- shifts ----

  lemma ShiftLeftIs(a: int, n: nat)
    requires InRange(a) && n < 128
    ensures CheckedShl(a, n).Some? && OperatorMeans(ShlOp, a, n, CheckedShl(a, n).value)
  {
    hide Pow2, Shl, Shr, Low, TwosBit;
    RangeIsI128(a);
    var x, p := Bits(a), Pow2(n);
    var y := Shl(x, n);
    ShlIsProduct(x, n);
    Powers.Divide(y, 128);
    ShlIsProduct(Shr(y, 128), 128);
    var low := Low(y, 128);
    var v := FromBits(low);
    RangeIsI128(v);
    var c := if a >= 0 then 0 else 1;
    assert x == a + c * TWO_128;
    ShiftedMultiple(a, c, p);
    // v is a * p but for multiples of 2^128
    var m := (if low < TWO_127 then 0 else 1) + Shr(y, 128) - c * p;
    assert v - a * p == -m * TWO_128;
    MultipleOf(-m);
  }

  lemma ShiftedMultiple(a: int, c: int, p: int)
    ensures (a + c * TWO_128) * p == a * p + (c * p) * TWO_128
  {
  }

  lemma MultipleOf(m: int)
    ensures m * TWO_128 % TWO_128 == 0
  {
  }

  lemma ShiftLeftDetermined(a: int, p: int, v: int, w: int)
    requires InRange(v) && InRange(w) && (v - a * p) % Pow2(128) == 0 && (w - a * p) % Pow2(128) == 0
    ensures v == w
  {
    hide Pow2;
    RangeIsI128(v);
    RangeIsI128(w);
    var x := a * p;
    assert v - x == TWO_128 * ((v - x) / TWO_128) && w - x == TWO_128 * ((w - x) / TWO_128);
  }

  lemma ShiftRightDetermined(a: int, p: int, v: int, w: int)
    requires p > 0 && v * p <= a < (v + 1) * p && w * p <= a < (w + 1) * p
    ensures v == w
  {
    Monotone(v + 1, w, p);
    Monotone(w + 1, v, p);
  }

  lemma Monotone(x: int, y: int, p: int)
    requires p > 0
    ensures x <= y ==> x * p <= y * p
  {
    if x <= y { assert (y - x) * p >= 0; }
  }

  // ---- division ----

  lemma QuotientTruncates(a: int, b: int)
    requires b != 0
    ensures Truncates(a, b, Quotient(a, b), Modulus(a, b))
  {
    hide Quotient, Modulus;
    DivisionTruncates(a, b);
  }

  lemma TruncationDetermined(a: int, b: int, q: int, r: int, q': int, r': int)
    requires b != 0 && Truncates(a, b, q, r) && Truncates(a, b, q', r')
    ensures q == q' && r == r'
  {
    var d := q - q';
    assert b * q - b * q' == b * d;
    if d != 0 { AtLeast(b, d); }
  }

  lemma AtLeast(b: int, d: int)
    requires b != 0 && d != 0
    ensures (if b > 0 then b else -b) <= if b * d >= 0 then b * d else -(b * d)
  {
    var x, y := if b > 0 then b else -b, if d > 0 then d else -d;
    assert x * y >= x by { Monotone(1, y, x); }
    if b > 0 && d < 0 { assert b * d == -(b * -d); }
    if b < 0 && d > 0 { assert b * d == -(-b * d); }
    if b < 0 && d < 0 { assert b * d == -b * -d; }
  }

  /** Quotients of numbers in range are in range, but for the least number by -1. */
  lemma QuotientRange(a: int, b: int)
    requires b != 0 && InRange(a) && InRange(b)
    ensures InRange(Quotient(a, b)) <==> !(a == -TWO_127 && b == -1)
  {
    hide Pow2, Quotient, Modulus;
    RangeIsI128(a);
    RangeIsI128(b);
    RangeIsI128(Quotient(a, b));
    DivisionTruncates(a, b);
    var q := Quotient(a, b);
    if q != 0 { AtLeast(b, q); AtLeast(q, b); }
  }

  // ---- the operators give what they mean ----

  lemma ResultIsMeant(operator: BinaryOperator, a: int, b: int)
    requires InRange(a) && InRange(b) && EvaluateBinary(operator, a, b).Some?
    ensures OperatorMeans(operator, a, b, EvaluateBinary(operator, a, b).value)
  {
    hide Pow2, Shl, Shr, Low, BitAnd, BitOr, BitXor, Bits, FromBits, Quotient, Modulus, TwosBit, CheckedShl, Truncates;
    RangeIsI128(a + b);
    RangeIsI128(a - b);
    RangeIsI128(a * b);
    match operator {
      case Divide =>
        RangeIsI128(Quotient(a, b));
        QuotientTruncates(a, b);
      case Remainder =>
        QuotientTruncates(a, b);
        QuotientRange(a, b);
      case AndOp => BitwiseIs(operator, a, b);
      case XorOp => BitwiseIs(operator, a, b);
      case OrOp => BitwiseIs(operator, a, b);
      case ShlOp => ShiftLeftIs(a, b);
      case ShrOp => ShiftRightFloors(a, b);
      case _ =>
    }
  }

  /** Where something is meant, it is given. */
  lemma MeantIsResult(operator: BinaryOperator, a: int, b: int, v: int)
    requires InRange(a) && InRange(b) && OperatorMeans(operator, a, b, v)
    ensures EvaluateBinary(operator, a, b).Some?
  {
    hide Pow2, Shl, Shr, Low, BitAnd, BitOr, BitXor, Bits, FromBits, Quotient, Modulus, TwosBit, Truncates;
    RangeIsI128(v);
    match operator {
      case Divide =>
        var r :| Truncates(a, b, v, r);
        QuotientTruncates(a, b);
        TruncationDetermined(a, b, v, r, Quotient(a, b), Modulus(a, b));
      case Remainder =>
        var q :| InRange(q) && Truncates(a, b, q, v);
        QuotientTruncates(a, b);
        TruncationDetermined(a, b, q, v, Quotient(a, b), Modulus(a, b));
        QuotientRange(a, b);
      case _ =>
    }
  }

  lemma OneMeaning(operator: BinaryOperator, a: int, b: int, v: int, w: int)
    requires OperatorMeans(operator, a, b, v) && OperatorMeans(operator, a, b, w)
    ensures v == w
  {
    hide Pow2, TwosBit, Truncates, InRange;
    match operator {
      case Divide =>
        var r :| Truncates(a, b, v, r);
        var t :| Truncates(a, b, w, t);
        TruncationDetermined(a, b, v, r, w, t);
      case Remainder =>
        var q :| InRange(q) && Truncates(a, b, q, v);
        var p :| InRange(p) && Truncates(a, b, p, w);
        TruncationDetermined(a, b, q, v, p, w);
      case AndOp => BitsDetermine(v, w);
      case XorOp => BitsDetermine(v, w);
      case OrOp => BitsDetermine(v, w);
      case ShlOp => ShiftLeftDetermined(a, Pow2(b), v, w);
      case ShrOp => ShiftRightDetermined(a, Pow2(b), v, w);
      case _ =>
    }
  }

  /** On numbers of 128 bits each operator of either engine gives exactly what it means, and fails where nothing is meant:
      on overflow, division by zero, and shifts by a negative number or by 128 and more. */
  lemma OperatorsMean(operator: BinaryOperator, a: int, b: int, v: int)
    requires InRange(a) && InRange(b)
    ensures EvaluateBinary(operator, a, b) == Some(v) <==> OperatorMeans(operator, a, b, v)
    ensures Apply(operator, a, b) == EvaluateBinary(operator, a, b)
  {
    hide EvaluateBinary, OperatorMeans, Apply, InRange;
    SameOperators(operator, a, b);
    if EvaluateBinary(operator, a, b).Some? {
      ResultIsMeant(operator, a, b);
      if OperatorMeans(operator, a, b, v) { OneMeaning(operator, a, b, v, EvaluateBinary(operator, a, b).value); }
    } else if OperatorMeans(operator, a, b, v) {
      MeantIsResult(operator, a, b, v);
    }
  }

  lemma MeaningInRange(operator: BinaryOperator, a: int, b: int, v: int)
    requires InRange(a) && OperatorMeans(operator, a, b, v) && InRange(b)
    ensures InRange(v)
  {
    hide Pow2, TwosBit;
    match operator {
      case Remainder => RemainderInRange(a, b, v);
      case ShrOp =>
        var p := Pow2(b);
        if v > 0 { Monotone(1, p, v); }
        if v < -1 {
          Monotone(1, p, -(v + 1));
          assert (v + 1) * p == -(p * -(v + 1));
        }
      case _ =>
    }
  }

  lemma RemainderInRange(a: int, b: int, v: int)
    requires InRange(a) && InRange(b) && OperatorMeans(Remainder, a, b, v)
    ensures InRange(v)
  {
    hide Pow2;
  }

  // ---- trees and texts ----

  predicate NumbersInRange(tree: Tree)
  {
    match tree
    case Number(value) => InRange(value)
    case Name(_) => true
    case Unary(_, operand) => NumbersInRange(operand)
    case Binary(_, left, right) => NumbersInRange(left) && NumbersInRange(right)
  }

  predicate SymbolsInRange(symbols: Symbols)
  {
    forall name :: name in symbols ==> InRange(symbols[name])
  }

  /** Every one of the 128 bits differs. */
  ghost predicate Complements(v: int, w: int)
  {
    InRange(v) && forall k: nat :: k < 128 ==> TwosBit(v, k) != TwosBit(w, k)
  }

  /** The value of a tree: names mean what the table says, the complement flips every bit, and a negation must fit. */
  ghost predicate Means(tree: Tree, symbols: Symbols, v: int)
  {
    match tree
    case Number(value) => v == value
    case Name(name) => name in symbols && v == symbols[name]
    case Unary(operator, operand) =>
      (match operator
       case UPlus => Means(operand, symbols, v)
       case UMinus => InRange(v) && Means(operand, symbols, -v)
       case UNot => exists w :: Means(operand, symbols, w) && Complements(v, w))
    case Binary(operator, left, right) =>
      exists l, r :: Means(left, symbols, l) && Means(right, symbols, r) && OperatorMeans(operator, l, r, v)
  }

  lemma {:induction false} ComplementBits(x: int, k: nat)
    ensures TwosBit(-x - 1, k) != TwosBit(x, k)
    decreases k
  {
    if k > 0 {
      ComplementBits(x / 2, k - 1);
      assert (-x - 1) / 2 == -(x / 2) - 1;
    }
  }

  /** A tree evaluates to v if and only if it means v. */
  lemma {:induction false} ValueIsMeant(tree: Tree, symbols: Symbols, v: int)
    requires NumbersInRange(tree) && SymbolsInRange(symbols)
    ensures EvaluateTree(tree, symbols) == Some(v) <==> Means(tree, symbols, v)
    ensures Means(tree, symbols, v) ==> InRange(v)
    decreases tree, 2
  {
    hide EvaluateBinary, OperatorMeans, TwosBit, Pow2;
    match tree {
      case Number(_) =>
      case Name(_) =>
      case Unary(operator, operand) => UnaryIsMeant(operator, operand, symbols, v);
      case Binary(operator, left, right) => BinaryIsMeant(operator, left, right, symbols, v);
    }
  }

  lemma {:induction false} UnaryIsMeant(operator: UnaryOperator, operand: Tree, symbols: Symbols, v: int)
    requires NumbersInRange(operand) && SymbolsInRange(symbols)
    ensures EvaluateTree(Unary(operator, operand), symbols) == Some(v) <==> Means(Unary(operator, operand), symbols, v)
    ensures Means(Unary(operator, operand), symbols, v) ==> InRange(v)
    decreases Unary(operator, operand), 1
  {
    hide TwosBit, Pow2, InRange, NumbersInRange, SymbolsInRange, Complements;
    if operator == UNot {
      NotIsMeant(operand, symbols, v);
    } else {
      ValueIsMeant(operand, symbols, v);
      ValueIsMeant(operand, symbols, -v);
      RangeIsI128(v);
    }
  }

  lemma {:induction false} NotIsMeant(operand: Tree, symbols: Symbols, v: int)
    requires NumbersInRange(operand) && SymbolsInRange(symbols)
    ensures EvaluateTree(Unary(UNot, operand), symbols) == Some(v) <==> Means(Unary(UNot, operand), symbols, v)
    ensures Means(Unary(UNot, operand), symbols, v) ==> InRange(v)
    decreases Unary(UNot, operand), 0
  {
    hide TwosBit, Pow2, InRange, NumbersInRange, SymbolsInRange, Complements;
    ComplementRange(v);
    ValueIsMeant(operand, symbols, -v - 1);
    if InRange(v) { ComplementIs(v, -v - 1); }
    if Means(Unary(UNot, operand), symbols, v) {
      var w :| Means(operand, symbols, w) && Complements(v, w);
      ValueIsMeant(operand, symbols, w);
      ComplementIs(v, w);
    }
  }

  lemma ComplementIs(v: int, w: int)
    requires InRange(w)
    ensures Complements(v, w) <==> v == -w - 1
  {
    hide TwosBit, Pow2, InRange;
    ComplementRange(w);
    forall k: nat | k < 128 ensures TwosBit(-w - 1, k) != TwosBit(w, k) { ComplementBits(w, k); }
    if Complements(v, w) { BitsDetermine(v, -w - 1); }
  }

  lemma ComplementRange(x: int)
    ensures InRange(x) <==> InRange(-x - 1)
  {
    hide Pow2;
  }

  lemma {:induction false} BinaryIsMeant(operator: BinaryOperator, left: Tree, right: Tree, symbols: Symbols, v: int)
    requires NumbersInRange(left) && NumbersInRange(right) && SymbolsInRange(symbols)
    ensures EvaluateTree(Binary(operator, left, right), symbols) == Some(v) <==> Means(Binary(operator, left, right), symbols, v)
    ensures Means(Binary(operator, left, right), symbols, v) ==> InRange(v)
    decreases Binary(operator, left, right), 0
  {
    hide EvaluateBinary, OperatorMeans, EvaluateTree, InRange, NumbersInRange, SymbolsInRange;
    BinaryNode(operator, left, right, symbols);
    if EvaluateTree(left, symbols).Some? && EvaluateTree(right, symbols).Some? {
      var l, r := EvaluateTree(left, symbols).value, EvaluateTree(right, symbols).value;
      ValueIsMeant(left, symbols, l);
      ValueIsMeant(right, symbols, r);
      OperatorsMean(operator, l, r, v);
    }
    if Means(Binary(operator, left, right), symbols, v) {
      var l, r :| Means(left, symbols, l) && Means(right, symbols, r) && OperatorMeans(operator, l, r, v);
      ValueIsMeant(left, symbols, l);
      ValueIsMeant(right, symbols, r);
      MeaningInRange(operator, l, r, v);
    }
  }

  predicate LiteralsInRange(tokens: seq<Token>)
  {
    forall i :: 0 <= i < |tokens| && tokens[i].Literal? ==> InRange(tokens[i].value)
  }

  lemma {:induction false} DerivedInRange(level: nat, tokens: seq<Token>, tree: Tree)
    requires level <= UNARY_LEVEL && Derives(level, tokens, tree) && LiteralsInRange(tokens)
    ensures NumbersInRange(tree)
    decreases |tokens|, UNARY_LEVEL - level
  {
    hide InRange;
    if level == UNARY_LEVEL {
      if |tokens| > 1 {
        if tokens[0] == LeftParen {
          DerivedInRange(OR_LEVEL, tokens[1..|tokens| - 1], tree);
        } else {
          DerivedInRange(UNARY_LEVEL, tokens[1..], tree.operand);
        }
      }
    } else if Derives(level + 1, tokens, tree) {
      DerivedInRange(level + 1, tokens, tree);
    } else {
      var i :| SplitsAt(level, tokens, i, tree);
      DerivedInRange(level, tokens[..i], tree.left);
      DerivedInRange(level + 1, tokens[i + 1..], tree.right);
    }
  }

  /** What a text of tokens means: the value of the one tree the grammar gives it. */
  ghost predicate TextMeans(tokens: seq<Token>, symbols: Symbols, v: int)
  {
    exists tree :: Derives(OR_LEVEL, tokens, tree) && Means(tree, symbols, v)
  }

  /** Both engines, on every token sequence and symbol table of 128-bit numbers, give v exactly when the text means v. */
  lemma EnginesMean(tokens: seq<Token>, symbols: Symbols, v: int)
    requires LiteralsInRange(tokens) && SymbolsInRange(symbols)
    ensures EvaluateText(tokens, symbols) == Some(v) <==> TextMeans(tokens, symbols, v)
    ensures (exists tree :: ParseText(tokens) == Some(tree) && EvaluateTree(tree, symbols) == Some(v)) <==> TextMeans(tokens, symbols, v)
  {
    hide EvaluateText, ParseText, EvaluateTree, Derives, Means, LiteralsInRange, SymbolsInRange, NumbersInRange;
    EnginesAgree(tokens, symbols);
    if ParseText(tokens).Some? {
      var tree := ParseText(tokens).value;
      ParsesTheGrammar(tokens, tree);
      DerivedInRange(OR_LEVEL, tokens, tree);
      ValueIsMeant(tree, symbols, v);
    }
    if TextMeans(tokens, symbols, v) {
      var tree :| Derives(OR_LEVEL, tokens, tree) && Means(tree, symbols, v);
      ParsesTheGrammar(tokens, tree);
      DerivedInRange(OR_LEVEL, tokens, tree);
      ValueIsMeant(tree, symbols, v);
    }
  }
}
