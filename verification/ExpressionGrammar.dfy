/** What expressions mean, told without either engine: a stratified grammar, the value of each
    operator on 128-bit two's complement numbers, and the value of a tree. Both engines accept
    exactly the grammar's sentences and give exactly these values. */
module ExpressionGrammar {
  import opened Options
  import opened Powers
  import opened BitOps
  import opened Expressions

  // ---- the grammar ----

  /** The strata, loosest first: or, xor, and, shifts, sums, products; operators of one stratum associate to the left. */
  const OR_LEVEL := 0
  const XOR_LEVEL := 1
  const AND_LEVEL := 2
  const SHIFT_LEVEL := 3
  const SUM_LEVEL := 4
  const PRODUCT_LEVEL := 5
  const UNARY_LEVEL := 6

  predicate Operates(level: nat, token: Token, operator: BinaryOperator)
  {
    || (level == OR_LEVEL && token == Pipe && operator == OrOp)
    || (level == XOR_LEVEL && token == Caret && operator == XorOp)
    || (level == AND_LEVEL && token == Ampersand && operator == AndOp)
    || (level == SHIFT_LEVEL && token == ShiftLeft && operator == ShlOp)
    || (level == SHIFT_LEVEL && token == ShiftRight && operator == ShrOp)
    || (level == SUM_LEVEL && token == Plus && operator == Add)
    || (level == SUM_LEVEL && token == Minus && operator == Subtract)
    || (level == PRODUCT_LEVEL && token == Star && operator == Multiply)
    || (level == PRODUCT_LEVEL && token == Slash && operator == Divide)
    || (level == PRODUCT_LEVEL && token == Percent && operator == Remainder)
  }

  predicate Prefixes(token: Token, operator: UnaryOperator)
  {
    || (token == Plus && operator == UPlus)
    || (token == Minus && operator == UMinus)
    || (token == Tilde && operator == UNot)
  }

  /** The tokens are a sentence of the stratum, with this tree. */
  ghost predicate Derives(level: nat, tokens: seq<Token>, tree: Tree)
    decreases |tokens|, if level <= UNARY_LEVEL then UNARY_LEVEL - level else 0
  {
    if level < UNARY_LEVEL then
      Derives(level + 1, tokens, tree) || exists i :: SplitsAt(level, tokens, i, tree)
    else
      || (|tokens| == 1 && tokens[0].Literal? && tree == Number(tokens[0].value))
      || (|tokens| == 1 && tokens[0].Symbol? && tree == Name(tokens[0].name))
      || (|tokens| > 1 && tree.Unary? && Prefixes(tokens[0], tree.unary) && Derives(UNARY_LEVEL, tokens[1..], tree.operand))
      || (|tokens| > 2 && tokens[0] == LeftParen && tokens[|tokens| - 1] == RightParen
          && Derives(OR_LEVEL, tokens[1..|tokens| - 1], tree))
  }

  /** Left operand of the same stratum, operator, right operand of the next tighter one. */
  ghost predicate SplitsAt(level: nat, tokens: seq<Token>, i: int, tree: Tree)
    requires level < UNARY_LEVEL
    decreases |tokens|, 0
  {
    0 < i < |tokens| - 1 && tree.Binary? && Operates(level, tokens[i], tree.operator)
    && Derives(level, tokens[..i], tree.left) && Derives(level + 1, tokens[i + 1..], tree.right)
  }

  lemma StrataArePrecedences(token: Token)
    ensures forall level: nat, operator: BinaryOperator ::
              Operates(level, token, operator) <==> TokenOperator(token) == Some(operator) && level + 1 == Precedence(operator)
    ensures TokenOperator(token).Some? ==> 1 <= Precedence(TokenOperator(token).value) <= UNARY_LEVEL
    ensures forall operator :: Prefixes(token, operator) <==> TokenUnary(token) == Some(operator)
  {
  }

  // ---- every sentence is parsed to its tree ----

  lemma {:induction false} DerivedUnary(tokens: seq<Token>, tree: Tree, after: seq<Token>)
    requires Derives(UNARY_LEVEL, tokens, tree)
    ensures TreeUnary(tokens + after) == Done(tree, after)
    decreases |tokens|, 0
  {
    hide TreeExpression, TreeLoop, Suffix, Precedence;
    var all := tokens + after;
    StrataArePrecedences(tokens[0]);
    if |tokens| == 1 {
      assert all[1..] == after;
    } else if tokens[0] == LeftParen {
      var inner := tokens[1..|tokens| - 1];
      DerivedExpression(OR_LEVEL, inner, tree, [RightParen] + after, 0);
      StopsLoop(tree, [RightParen] + after, 0);
      assert all == [LeftParen] + (inner + ([RightParen] + after));
      ParenthesesParse(inner + ([RightParen] + after), tree, after);
    } else {
      DerivedUnary(tokens[1..], tree.operand, after);
      assert all[1..] == tokens[1..] + after;
    }
  }

  /** Parsing on from a sentence of a stratum, with the sentence's tree as the left operand. */
  lemma {:induction false} DerivedExpression(level: nat, tokens: seq<Token>, tree: Tree, after: seq<Token>, minimum: nat)
    requires level <= UNARY_LEVEL && Derives(level, tokens, tree) && minimum <= level + 1 && Stops(after, level + 1)
    ensures TreeExpression(tokens + after, minimum) == TreeLoop(tree, after, minimum)
    decreases |tokens|, UNARY_LEVEL - level + 1
  {
    hide TreeLoop, TreeUnary, Suffix;
    if level == UNARY_LEVEL {
      DerivedUnary(tokens, tree, after);
    } else if Derives(level + 1, tokens, tree) {
      DerivedExpression(level + 1, tokens, tree, after, minimum);
    } else {
      var i :| SplitsAt(level, tokens, i, tree);
      DerivedSplit(level, tokens, i, tree, after, minimum);
    }
  }

  lemma {:induction false} DerivedSplit(level: nat, tokens: seq<Token>, i: int, tree: Tree, after: seq<Token>, minimum: nat)
    requires level < UNARY_LEVEL && SplitsAt(level, tokens, i, tree) && minimum <= level + 1 && Stops(after, level + 1)
    ensures TreeExpression(tokens + after, minimum) == TreeLoop(tree, after, minimum)
    decreases |tokens|, 0
  {
    hide TreeLoop, TreeUnary, TreeExpression, Suffix, Derives;
    var rest := [tokens[i]] + (tokens[i + 1..] + after);
    StrataArePrecedences(tokens[i]);
    assert tokens + after == tokens[..i] + rest;
    assert rest[1..] == tokens[i + 1..] + after;
    DerivedExpression(level, tokens[..i], tree.left, rest, minimum);
    DerivedExpression(level + 1, tokens[i + 1..], tree.right, after, level + 2);
    StopsLoop(tree.right, after, level + 2);
    LoopUnfolds(tree.left, rest, minimum);
  }

  // ---- and every parse is a sentence ----

  function Consumed(tokens: seq<Token>, rest: seq<Token>): seq<Token>
    requires |rest| <= |tokens|
  {
    tokens[..|tokens| - |rest|]
  }

  lemma {:induction false} Looser(level: nat, lower: nat, tokens: seq<Token>, tree: Tree)
    requires lower <= level <= UNARY_LEVEL && Derives(level, tokens, tree)
    ensures Derives(lower, tokens, tree)
    decreases level - lower
  {
    if lower < level { Looser(level, lower + 1, tokens, tree); }
  }

  /** The stratum that a least precedence parses. */
  function Stratum(minimum: nat): nat
  {
    if minimum == 0 then 0 else minimum - 1
  }

  lemma {:induction false} UnaryIsDerived(tokens: seq<Token>)
    ensures match TreeUnary(tokens)
            case Fail => true
            case Done(tree, rest) => Derives(UNARY_LEVEL, Consumed(tokens, rest), tree)
    decreases |tokens|, 0
  {
    hide TreeExpression, TreeLoop, Precedence;
    if tokens != [] && TreeUnary(tokens).Done? {
      var rest := TreeUnary(tokens).rest;
      StrataArePrecedences(tokens[0]);
      var own := Consumed(tokens, rest);
      if TokenUnary(tokens[0]).Some? {
        UnaryIsDerived(tokens[1..]);
        assert own[1..] == Consumed(tokens[1..], rest);
      } else if tokens[0] == LeftParen {
        ExpressionIsDerived(tokens[1..], 0);
        var inside := TreeExpression(tokens[1..], 0).rest;
        assert own[1..|own| - 1] == Consumed(tokens[1..], inside);
        assert tokens[1..][|tokens| - 1 - |inside|] == inside[0];
      }
    }
  }

  lemma {:induction false} ExpressionIsDerived(tokens: seq<Token>, minimum: nat)
    requires minimum <= UNARY_LEVEL + 1
    ensures match TreeExpression(tokens, minimum)
            case Fail => true
            case Done(tree, rest) => Derives(Stratum(minimum), Consumed(tokens, rest), tree) && Ends(rest, minimum)
    decreases |tokens|, 2
  {
    hide TreeLoop, TreeUnary, Derives;
    UnaryIsDerived(tokens);
    match TreeUnary(tokens) {
      case Fail =>
      case Done(left, rest) =>
        AnyOperatorFits(rest);
        LoopIsDerived(Consumed(tokens, rest), left, rest, minimum, UNARY_LEVEL);
        if TreeLoop(left, rest, minimum).Done? { ConsumedOn(tokens, rest, TreeLoop(left, rest, minimum).rest); }
    }
  }

  /** No operator of this precedence or a higher one follows. */
  predicate Ends(rest: seq<Token>, minimum: nat)
  {
    rest == [] || TokenOperator(rest[0]).None? || Precedence(TokenOperator(rest[0]).value) < minimum
  }

  lemma AnyOperatorFits(rest: seq<Token>)
    ensures Ends(rest, UNARY_LEVEL + 2)
  {
  }

  lemma ConsumedOn(tokens: seq<Token>, middle: seq<Token>, rest: seq<Token>)
    requires Suffix(middle, tokens) && Suffix(rest, middle)
    ensures Consumed(tokens, middle) + Consumed(middle, rest) == Consumed(tokens, rest)
  {
  }

  lemma {:induction false} LoopIsDerived(before: seq<Token>, left: Tree, tokens: seq<Token>, minimum: nat, level: nat)
    requires minimum <= UNARY_LEVEL + 1 && Stratum(minimum) <= level <= UNARY_LEVEL
    requires Derives(level, before, left) && Ends(tokens, level + 2)
    ensures match TreeLoop(left, tokens, minimum)
            case Fail => true
            case Done(tree, rest) => Derives(Stratum(minimum), before + Consumed(tokens, rest), tree) && Ends(rest, minimum)
    decreases |tokens|, 1
  {
    hide TreeExpression, TreeUnary, TreeLoop, Derives, Suffix;
    if Ends(tokens, minimum) {
      StopsLoop(left, tokens, minimum);
      Looser(level, Stratum(minimum), before, left);
      assert before + Consumed(tokens, tokens) == before;
    } else {
      LoopUnfolds(left, tokens, minimum);
      StrataArePrecedences(tokens[0]);
      var operator := TokenOperator(tokens[0]).value;
      var stratum: nat := Precedence(operator) - 1;
      ExpressionIsDerived(tokens[1..], stratum + 2);
      match TreeExpression(tokens[1..], stratum + 2) {
        case Fail =>
        case Done(right, rest) =>
          Looser(level, stratum, before, left);
          var taken := Consumed(tokens[1..], rest);
          var tree := Binary(operator, left, right);
          SplitDerives(stratum, before, tokens[0], taken, tree);
          LoopIsDerived(before + [tokens[0]] + taken, tree, rest, minimum, stratum);
          var result := TreeLoop(tree, rest, minimum);
          if result.Done? { TakenOn(before, tokens, rest, result.rest); }
      }
    }
  }

  lemma TakenOn(before: seq<Token>, tokens: seq<Token>, middle: seq<Token>, rest: seq<Token>)
    requires tokens != [] && Suffix(middle, tokens[1..]) && Suffix(rest, middle)
    ensures before + [tokens[0]] + Consumed(tokens[1..], middle) + Consumed(middle, rest) == before + Consumed(tokens, rest)
  {
    ConsumedOn(tokens[1..], middle, rest);
    assert Consumed(tokens, rest) == [tokens[0]] + Consumed(tokens[1..], rest);
  }

  lemma SplitDerives(level: nat, before: seq<Token>, token: Token, after: seq<Token>, tree: Tree)
    requires level < UNARY_LEVEL && tree.Binary? && Operates(level, token, tree.operator)
    requires Derives(level, before, tree.left) && Derives(level + 1, after, tree.right)
    ensures Derives(level, before + [token] + after, tree)
  {
    NotEmpty(level, before, tree.left);
    NotEmpty(level + 1, after, tree.right);
    var all := before + [token] + after;
    assert all[..|before|] == before && all[|before| + 1..] == after;
    assert SplitsAt(level, all, |before|, tree);
  }

  lemma {:induction false} NotEmpty(level: nat, tokens: seq<Token>, tree: Tree)
    requires level <= UNARY_LEVEL && Derives(level, tokens, tree)
    ensures tokens != []
    decreases UNARY_LEVEL - level
  {
    if level < UNARY_LEVEL && Derives(level + 1, tokens, tree) { NotEmpty(level + 1, tokens, tree); }
  }

  /** The parser accepts exactly the sentences of the grammar, with exactly their trees. */
  lemma ParsesTheGrammar(tokens: seq<Token>, tree: Tree)
    ensures ParseText(tokens) == Some(tree) <==> Derives(OR_LEVEL, tokens, tree)
  {
    hide TreeExpression, TreeLoop, Derives;
    ExpressionIsDerived(tokens, 0);
    if TreeExpression(tokens, 0).Done? {
      assert Consumed(tokens, []) == tokens;
    }
    if Derives(OR_LEVEL, tokens, tree) {
      DerivedExpression(OR_LEVEL, tokens, tree, [], 0);
      StopsLoop(tree, [], 0);
      assert tokens + [] == tokens;
    }
  }

  /** No token sequence has two trees. */
  lemma GrammarIsUnambiguous(tokens: seq<Token>, a: Tree, b: Tree)
    requires Derives(OR_LEVEL, tokens, a) && Derives(OR_LEVEL, tokens, b)
    ensures a == b
  {
    hide Derives, ParseText;
    ParsesTheGrammar(tokens, a);
    ParsesTheGrammar(tokens, b);
  }
}
