/** Both engines as they run: a parser object whose cursor moves through the
    tokens, climbing precedence in a loop. */
module ExpressionParsers {
  import opened Options
  import opened Expressions

  /** The assembler's parser, which computes the value on the way. */
  class EvaluatingParser {
    const tokens: seq<Token>
    const symbols: Symbols
    var cursor: nat

    constructor (tokens: seq<Token>, symbols: Symbols)
      ensures this.tokens == tokens && this.symbols == symbols && cursor == 0
    {
      this.tokens, this.symbols, cursor := tokens, symbols, 0;
    }

    method Expression(minimum: nat) returns (r: Option<int>)
      requires cursor <= |tokens|
      modifies this
      ensures old(cursor) <= cursor <= |tokens|
      ensures match EvalExpression(tokens[old(cursor)..], symbols, minimum)
              case Done(value, rest) => r == Some(value) && rest == tokens[cursor..]
              case Fail => r == None
      decreases |tokens| - cursor, 2
    {
      hide Apply, EvalPrefix, Suffix;
      var first := Prefix();
      if first.None? { return None; }
      var left := first.value;
      ghost var start := old(cursor);
      while cursor < |tokens| && TokenOperator(tokens[cursor]).Some?
        invariant start < cursor <= |tokens|
        invariant EvalExpression(tokens[start..], symbols, minimum) == EvalLoop(left, tokens[cursor..], symbols, minimum)
        decreases |tokens| - cursor
      {
        var operator := TokenOperator(tokens[cursor]).value;
        var (leftPower, rightPower) := BindingPower(operator);
        if leftPower < minimum { return Some(left); }
        assert tokens[cursor..][1..] == tokens[cursor + 1..];
        cursor := cursor + 1;
        var right := Expression(rightPower);
        if right.None? { return None; }
        var value := Apply(operator, left, right.value);
        if value.None? { return None; }
        left := value.value;
      }
      return Some(left);
    }

    method Prefix() returns (r: Option<int>)
      requires cursor <= |tokens|
      modifies this
      ensures old(cursor) <= cursor <= |tokens|
      ensures match EvalPrefix(tokens[old(cursor)..], symbols)
              case Done(value, rest) => r == Some(value) && rest == tokens[cursor..] && old(cursor) < cursor
              case Fail => r == None
      decreases |tokens| - cursor, 0
    {
      hide EvalExpression, Suffix;
      if cursor == |tokens| { return None; }
      var token := tokens[cursor];
      assert tokens[cursor..][1..] == tokens[cursor + 1..];
      cursor := cursor + 1;
      if token == Plus || token == Minus || token == Tilde {
        r := Prefix();
        if r.Some? {
          if token == Minus { r := Checked(-r.value); }
          else if token == Tilde { r := Some(-r.value - 1); }
        }
        return;
      }
      if token == LeftParen {
        r := Expression(0);
        if r.None? { return; }
        if cursor < |tokens| && tokens[cursor] == RightParen {
          assert tokens[cursor..][1..] == tokens[cursor + 1..];
          cursor := cursor + 1;
          return;
        }
        return None;
      }
      if token.Literal? { return Some(token.value); }
      if token.Symbol? && token.name in symbols { return Some(symbols[token.name]); }
      return None;
    }
  }

  method Evaluate(tokens: seq<Token>, symbols: Symbols) returns (r: Option<int>)
    ensures r == EvaluateText(tokens, symbols)
  {
    hide EvalExpression;
    var parser := new EvaluatingParser(tokens, symbols);
    assert tokens[0..] == tokens;
    r := parser.Expression(0);
    if r.Some? && parser.cursor != |tokens| { return None; }
  }

  /** The monitor's parser, which builds the tree. */
  class BuildingParser {
    const tokens: seq<Token>
    var position: nat

    constructor (tokens: seq<Token>)
      ensures this.tokens == tokens && position == 0
    {
      this.tokens, position := tokens, 0;
    }

    method Expression(minimum: nat) returns (r: Option<Tree>)
      requires position <= |tokens|
      modifies this
      ensures old(position) <= position <= |tokens|
      ensures match TreeExpression(tokens[old(position)..], minimum)
              case Done(tree, rest) => r == Some(tree) && rest == tokens[position..]
              case Fail => r == None
      decreases |tokens| - position, 2
    {
      hide TreeUnary, Suffix;
      var first := UnaryOperand();
      if first.None? { return None; }
      var left := first.value;
      ghost var start := old(position);
      while position < |tokens| && TokenOperator(tokens[position]).Some?
        invariant start < position <= |tokens|
        invariant TreeExpression(tokens[start..], minimum) == TreeLoop(left, tokens[position..], minimum)
        decreases |tokens| - position
      {
        var operator := TokenOperator(tokens[position]).value;
        if Precedence(operator) < minimum { return Some(left); }
        assert tokens[position..][1..] == tokens[position + 1..];
        position := position + 1;
        var right := Expression(Precedence(operator) + 1);
        if right.None? { return None; }
        left := Binary(operator, left, right.value);
      }
      return Some(left);
    }

    method UnaryOperand() returns (r: Option<Tree>)
      requires position <= |tokens|
      modifies this
      ensures old(position) <= position <= |tokens|
      ensures match TreeUnary(tokens[old(position)..])
              case Done(tree, rest) => r == Some(tree) && rest == tokens[position..] && old(position) < position
              case Fail => r == None
      decreases |tokens| - position, 0
    {
      hide TreeExpression, Suffix;
      if position == |tokens| { return None; }
      var token := tokens[position];
      assert tokens[position..][1..] == tokens[position + 1..];
      position := position + 1;
      if TokenUnary(token).Some? {
        var operand := UnaryOperand();
        if operand.None? { return None; }
        return Some(Unary(TokenUnary(token).value, operand.value));
      }
      if token.Literal? { return Some(Number(token.value)); }
      if token.Symbol? { return Some(Name(token.name)); }
      if token == LeftParen {
        r := Expression(0);
        if r.None? { return; }
        if position < |tokens| && tokens[position] == RightParen {
          assert tokens[position..][1..] == tokens[position + 1..];
          position := position + 1;
          return;
        }
      }
      return None;
    }
  }

  method Parse(tokens: seq<Token>) returns (r: Option<Tree>)
    ensures r == ParseText(tokens)
  {
    hide TreeExpression;
    var parser := new BuildingParser(tokens);
    assert tokens[0..] == tokens;
    r := parser.Expression(0);
    if r.Some? && parser.position != |tokens| { return None; }
  }
}
