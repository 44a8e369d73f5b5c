/** Reading back what was written. */
module PersistenceProof {
  import opened Bytes
  import opened Options
  import opened BitOps
  import opened Persistence
  import Expressions
  import Powers
  import Utf8

  // ---- numbers, words, text ----

  lemma SplitTaken(first: seq<Byte>, rest: seq<Byte>)
    ensures Take(first + rest, |first|) == Done(first, rest)
  {
  }

  lemma NumberBack(value: nat, width: nat, rest: seq<Byte>)
    requires value < Powers.Pow2(8 * width)
    ensures DecodeNumber(LittleEndian(value, width) + rest, width) == Done(value, rest)
  {
    hide LittleEndian, LittleEndianValue, Powers.Pow2;
    LittleEndianBack(value, width);
    SplitTaken(LittleEndian(value, width), rest);
  }

  lemma WordBack(word: Word64, rest: seq<Byte>)
    ensures DecodeWord(LittleEndian(word, 8) + rest) == Done(word, rest)
  {
    hide Powers.Pow2, DecodeNumber;
    Powers.Pow2Bytes();
    NumberBack(word, 8, rest);
  }

  lemma Number32Back(value: Word32, rest: seq<Byte>)
    ensures DecodeNumber(LittleEndian(value, 4) + rest, 4) == Done(value, rest)
  {
    hide Powers.Pow2, DecodeNumber;
    Powers.Pow2Bytes();
    NumberBack(value, 4, rest);
  }

  lemma {:induction false} WordsBack(words: seq<Word64>, rest: seq<Byte>)
    ensures DecodeWords(EncodeWords(words) + rest, |words|) == Done(words, rest)
  {
    hide DecodeWord, LittleEndian;
    if words == [] {
      assert EncodeWords(words) + rest == rest;
    } else {
      var after := EncodeWords(words[1..]) + rest;
      assert EncodeWords(words) + rest == LittleEndian(words[0], 8) + after;
      WordBack(words[0], after);
      WordsBack(words[1..], rest);
      assert [words[0]] + words[1..] == words;
    }
  }

  lemma TextBack(text: string, rest: seq<Byte>)
    requires |EncodeText(text)| <= MAX_BYTES
    ensures DecodeText(EncodeText(text) + rest) == Done(text, rest)
  {
    hide DecodeNumber, LittleEndian, Take, Utf8.Encode, Utf8.Decode;
    var bytes := Utf8.Encode(text);
    assert EncodeText(text) + rest == LittleEndian(|bytes|, 4) + (bytes + rest);
    Number32Back(|bytes|, bytes + rest);
    SplitTaken(bytes, rest);
    Utf8.TextBack(text);
  }

  // ---- condition trees ----

  function Height(tree: Expressions.Tree): nat
  {
    match tree
    case Unary(_, operand) => 1 + Height(operand)
    case Binary(_, left, right) => 1 + if Height(left) > Height(right) then Height(left) else Height(right)
    case _ => 0
  }

  predicate LiteralsFit(tree: Expressions.Tree)
  {
    match tree
    case Number(value) => Expressions.IsI128(value)
    case Name(_) => true
    case Unary(_, operand) => LiteralsFit(operand)
    case Binary(_, left, right) => LiteralsFit(left) && LiteralsFit(right)
  }

  lemma LiteralBack(value: int, rest: seq<Byte>)
    requires Expressions.IsI128(value)
    ensures DecodeNumber(LittleEndian(Expressions.Bits(value), 16) + rest, 16) == Done(Expressions.Bits(value), rest)
    ensures Expressions.FromBits(Expressions.Bits(value)) == value
  {
    hide Powers.Pow2, DecodeNumber, LittleEndian;
    Powers.Pow2Wide();
    NumberBack(Expressions.Bits(value), 16, rest);
  }

  lemma LeafBack(tree: Expressions.Tree, depth: nat, rest: seq<Byte>)
    requires LiteralsFit(tree) && |EncodeTree(tree)| <= MAX_BYTES && (tree.Number? || tree.Name?)
    ensures DecodeTree(EncodeTree(tree) + rest, depth) == if depth <= MAX_TREE_DEPTH then Done(tree, rest) else Fail
  {
    hide DecodeNumber, DecodeText, EncodeText, LittleEndian, Expressions.Bits, Expressions.FromBits, Expressions.IsI128,
         BinaryFor, UnaryFor, BinaryCode, UnaryCode;
    var bytes := EncodeTree(tree) + rest;
    if tree.Number? {
      assert bytes[1..] == LittleEndian(Expressions.Bits(tree.number), 16) + rest;
      LiteralBack(tree.number, rest);
    } else {
      assert bytes[1..] == EncodeText(tree.text) + rest;
      TextBack(tree.text, rest);
    }
  }

  lemma UnaryBack(operator: Expressions.UnaryOperator, operand: Expressions.Tree, depth: nat, rest: seq<Byte>)
    ensures DecodeTree(EncodeTree(Expressions.Unary(operator, operand)) + rest, depth) ==
            if depth > MAX_TREE_DEPTH then Fail
            else match DecodeTree(EncodeTree(operand) + rest, depth + 1)
              case Fail => Fail
              case Done(value, after) => Done(Expressions.Unary(operator, value), after)
  {
    hide DecodeNumber, DecodeText, EncodeText, LittleEndian, BinaryFor, BinaryCode;
    var bytes := EncodeTree(Expressions.Unary(operator, operand)) + rest;
    assert bytes[1..][1..] == EncodeTree(operand) + rest;
  }

  lemma BinaryCodeBack(operator: Expressions.BinaryOperator)
    ensures BinaryFor(BinaryCode(operator)) == Some(operator)
  {
  }

  lemma BinaryBack(operator: Expressions.BinaryOperator, left: Expressions.Tree, right: Expressions.Tree, depth: nat, rest: seq<Byte>)
    ensures DecodeTree(EncodeTree(Expressions.Binary(operator, left, right)) + rest, depth) ==
            if depth > MAX_TREE_DEPTH then Fail
            else match DecodeTree(EncodeTree(left) + (EncodeTree(right) + rest), depth + 1)
              case Fail => Fail
              case Done(l, middle) =>
                match DecodeTree(middle, depth + 1)
                case Fail => Fail
                case Done(r, after) => Done(Expressions.Binary(operator, l, r), after)
  {
    hide DecodeNumber, DecodeText, EncodeText, LittleEndian, BinaryFor, BinaryCode, UnaryFor, UnaryCode;
    var bytes := EncodeTree(Expressions.Binary(operator, left, right)) + rest;
    assert bytes[1..][1..] == EncodeTree(left) + (EncodeTree(right) + rest);
    BinaryCodeBack(operator);
  }

  /** A tree is read back exactly when it does not reach below the depth limit. */
  lemma {:induction false} TreeBack(tree: Expressions.Tree, depth: nat, rest: seq<Byte>)
    requires LiteralsFit(tree) && |EncodeTree(tree)| <= MAX_BYTES
    ensures DecodeTree(EncodeTree(tree) + rest, depth) == if depth + Height(tree) <= MAX_TREE_DEPTH then Done(tree, rest) else Fail
    decreases tree
  {
    hide DecodeTree, EncodeText, LittleEndian;
    match tree {
      case Number(_) => LeafBack(tree, depth, rest);
      case Name(_) => LeafBack(tree, depth, rest);
      case Unary(operator, operand) =>
        UnaryBack(operator, operand, depth, rest);
        TreeBack(operand, depth + 1, rest);
      case Binary(operator, left, right) =>
        BinaryBack(operator, left, right, depth, rest);
        TreeBack(left, depth + 1, EncodeTree(right) + rest);
        TreeBack(right, depth + 1, rest);
    }
  }

  // ---- tables ----

  lemma {:induction false} ListsLength<K>(order: seq<K>, keys: set<K>)
    requires Lists(order, keys)
    ensures |order| == |keys|
    decreases |order|
  {
    if order == [] {
      assert keys == {};
    } else {
      var rest, fewer := order[1..], keys - {order[0]};
      forall k | k in fewer ensures k in rest {
        var i :| 0 <= i < |order| && order[i] == k;
        assert rest[i - 1] == k;
      }
      ListsLength(rest, fewer);
    }
  }

  /** The entries of a map that an order visits. */
  function Picked<K, V>(order: seq<K>, table: map<K, V>): map<K, V>
  {
    map k | k in order && k in table :: table[k]
  }

  predicate Distinct<K(==)>(order: seq<K>)
  {
    forall i, j :: 0 <= i < j < |order| ==> order[i] != order[j]
  }

  lemma PickedNext<K, V>(order: seq<K>, table: map<K, V>, sofar: map<K, V>)
    requires order != [] && order[0] in table
    ensures sofar[order[0] := table[order[0]]] + Picked(order[1..], table) == sofar + Picked(order, table)
  {
    assert order == [order[0]] + order[1..];
  }

  lemma PickedAll<K, V>(order: seq<K>, table: map<K, V>)
    requires forall k :: k in table ==> k in order
    ensures Picked(order, table) == table && map[] + Picked(order, table) == table
  {
  }

  lemma {:induction false} SymbolsBack(order: seq<Word64>, symbols: map<Word64, string>, sofar: map<Word64, string>, rest: seq<Byte>)
    requires Distinct(order) && (forall k :: k in order ==> k in symbols && k !in sofar)
    requires |EncodeSymbols(order, symbols)| <= MAX_BYTES
    ensures DecodeSymbols(EncodeSymbols(order, symbols) + rest, |order|, sofar) == Done(sofar + Picked(order, symbols), rest)
    ensures |order| <= |EncodeSymbols(order, symbols)|
    decreases |order|
  {
    hide DecodeWord, DecodeText, EncodeText, LittleEndian, Picked;
    if order == [] {
      assert EncodeSymbols(order, symbols) + rest == rest;
      NonePicked(order, symbols, sofar);
    } else {
      var key := order[0];
      var after := EncodeSymbols(order[1..], symbols) + rest;
      assert EncodeSymbols(order, symbols) + rest == LittleEndian(key, 8) + (EncodeText(symbols[key]) + after);
      WordBack(key, EncodeText(symbols[key]) + after);
      TextBack(symbols[key], after);
      SymbolsBack(order[1..], symbols, sofar[key := symbols[key]], rest);
      PickedNext(order, symbols, sofar);
    }
  }

  lemma NonePicked<K, V>(order: seq<K>, table: map<K, V>, sofar: map<K, V>)
    requires order == []
    ensures sofar + Picked(order, table) == sofar
  {
  }

  lemma {:induction false} MarksBack(order: seq<string>, marks: map<string, Word64>, sofar: map<string, Word64>, rest: seq<Byte>)
    requires Distinct(order) && (forall k :: k in order ==> k in marks && k !in sofar)
    requires |EncodeMarks(order, marks)| <= MAX_BYTES
    ensures DecodeMarks(EncodeMarks(order, marks) + rest, |order|, sofar) == Done(sofar + Picked(order, marks), rest)
    ensures |order| <= |EncodeMarks(order, marks)|
    decreases |order|
  {
    hide DecodeWord, DecodeText, EncodeText, LittleEndian, Picked;
    if order == [] {
      assert EncodeMarks(order, marks) + rest == rest;
      NonePicked(order, marks, sofar);
    } else {
      var key := order[0];
      var after := EncodeMarks(order[1..], marks) + rest;
      assert EncodeMarks(order, marks) + rest == EncodeText(key) + (LittleEndian(marks[key], 8) + after);
      TextBack(key, LittleEndian(marks[key], 8) + after);
      WordBack(marks[key], after);
      MarksBack(order[1..], marks, sofar[key := marks[key]], rest);
      PickedNext(order, marks, sofar);
    }
  }

  type Conditions = map<Word64, Expressions.Tree>

  /** No condition on the visited breakpoints nests deeper than a file may. */
  predicate Shallow(order: seq<Word64>, conditions: Conditions)
  {
    forall k :: k in order && k in conditions ==> Height(conditions[k]) <= MAX_TREE_DEPTH
  }

  predicate ConditionsFit(conditions: Conditions)
  {
    forall k :: k in conditions ==> LiteralsFit(conditions[k])
  }

  lemma ConditionBack(conditions: Conditions, address: Word64, rest: seq<Byte>)
    requires ConditionsFit(conditions) && |EncodeCondition(ConditionAt(conditions, address))| <= MAX_BYTES
    ensures DecodeCondition(EncodeCondition(ConditionAt(conditions, address)) + rest) ==
            if address in conditions && Height(conditions[address]) > MAX_TREE_DEPTH then Fail
            else Done(ConditionAt(conditions, address), rest)
  {
    hide DecodeTree, EncodeTree, Height, LiteralsFit;
    var bytes := EncodeCondition(ConditionAt(conditions, address)) + rest;
    if address in conditions {
      assert bytes[1..] == EncodeTree(conditions[address]) + rest;
      TreeBack(conditions[address], 0, rest);
    } else {
      assert bytes[1..] == rest;
    }
  }

  lemma PairBack(a: Word64, b: Word64, rest: seq<Byte>)
    ensures DecodeWords(EncodeWords([a, b]) + rest, 2) == Done([a, b], rest)
    ensures |EncodeWords([a, b])| == 16
  {
    hide DecodeWords, LittleEndian;
    WordsBack([a, b], rest);
    assert [a, b][1..] == [b] && [b][1..] == [];
    assert EncodeWords([b]) == LittleEndian(b, 8) + EncodeWords([]);
  }

  /** The breakpoint tables with the visited entries added. */
  function Added(order: seq<Word64>, breakpoints: map<Word64, Word64>, conditions: Conditions, t: BreakpointTables): BreakpointTables
  {
    (t.0 + Picked(order, breakpoints), t.1 + Picked(order, conditions))
  }

  lemma AddedNext(order: seq<Word64>, breakpoints: map<Word64, Word64>, conditions: Conditions, t: BreakpointTables)
    requires order != [] && order[0] in breakpoints
    ensures Added(order[1..], breakpoints, conditions,
                  Persistence.AddBreakpoint(t, order[0], breakpoints[order[0]], ConditionAt(conditions, order[0])))
         == Added(order, breakpoints, conditions, t)
  {
    assert order == [order[0]] + order[1..];
    if order[0] in conditions {
      PickedNext(order, conditions, t.1);
    } else {
      assert Picked(order[1..], conditions) == Picked(order, conditions);
    }
    PickedNext(order, breakpoints, t.0);
  }

  lemma ShallowNext(order: seq<Word64>, conditions: Conditions)
    requires order != []
    ensures Shallow(order, conditions) <==>
            Shallow(order[1..], conditions) && (order[0] in conditions ==> Height(conditions[order[0]]) <= MAX_TREE_DEPTH)
  {
    hide Height;
    assert order == [order[0]] + order[1..];
  }

  lemma {:induction false} BreakpointsBack(order: seq<Word64>, breakpoints: map<Word64, Word64>, conditions: Conditions,
                                           t: BreakpointTables, rest: seq<Byte>)
    requires Distinct(order) && (forall k :: k in order ==> k in breakpoints && k !in t.0) && ConditionsFit(conditions)
    requires |EncodeBreakpoints(order, breakpoints, conditions)| <= MAX_BYTES
    ensures DecodeBreakpoints(EncodeBreakpoints(order, breakpoints, conditions) + rest, |order|, t) ==
            if Shallow(order, conditions) then Done(Added(order, breakpoints, conditions, t), rest) else Fail
    ensures |order| <= |EncodeBreakpoints(order, breakpoints, conditions)|
    decreases |order|
  {
    hide DecodeWords, EncodeWords, DecodeCondition, EncodeCondition, Height, Shallow, Added, Persistence.AddBreakpoint, ConditionsFit;
    if order == [] {
      assert EncodeBreakpoints(order, breakpoints, conditions) + rest == rest;
      NoneAdded(order, breakpoints, conditions, t);
    } else {
      var key := order[0];
      var condition := ConditionAt(conditions, key);
      var next := Persistence.AddBreakpoint(t, key, breakpoints[key], condition);
      var after := EncodeBreakpoints(order[1..], breakpoints, conditions) + rest;
      assert EncodeBreakpoints(order, breakpoints, conditions) + rest
          == EncodeWords([key, breakpoints[key]]) + (EncodeCondition(condition) + after);
      PairBack(key, breakpoints[key], EncodeCondition(condition) + after);
      ConditionBack(conditions, key, after);
      KeysAfter(t, key, breakpoints[key], condition);
      BreakpointsBack(order[1..], breakpoints, conditions, next, rest);
      AddedNext(order, breakpoints, conditions, t);
      ShallowNext(order, conditions);
    }
  }

  lemma KeysAfter(t: BreakpointTables, key: Word64, id: Word64, condition: Option<Expressions.Tree>)
    ensures Persistence.AddBreakpoint(t, key, id, condition).0.Keys == t.0.Keys + {key}
  {
  }

  lemma NoneAdded(order: seq<Word64>, breakpoints: map<Word64, Word64>, conditions: Conditions, t: BreakpointTables)
    requires order == []
    ensures Added(order, breakpoints, conditions, t) == t && Shallow(order, conditions)
  {
    NonePicked(order, breakpoints, t.0);
    NonePicked(order, conditions, t.1);
  }

  lemma TripleBack(a: Word64, b: Word64, c: Word64, rest: seq<Byte>)
    ensures DecodeWords(EncodeWords([a, b, c]) + rest, 3) == Done([a, b, c], rest)
  {
    hide DecodeWords, LittleEndian;
    WordsBack([a, b, c], rest);
  }

  /** Each watchpoint is kept under its own number. */
  predicate Numbered(watchpoints: map<Word64, Watchpoint>)
  {
    forall k :: k in watchpoints ==> watchpoints[k].id == k
  }

  lemma {:induction false} WatchpointsBack(order: seq<Word64>, watchpoints: map<Word64, Watchpoint>,
                                           sofar: map<Word64, Watchpoint>, rest: seq<Byte>)
    requires Distinct(order) && (forall k :: k in order ==> k in watchpoints && k !in sofar) && Numbered(watchpoints)
    ensures DecodeWatchpoints(EncodeWatchpoints(order, watchpoints) + rest, |order|, sofar)
         == Done(sofar + Picked(order, watchpoints), rest)
    ensures |order| <= |EncodeWatchpoints(order, watchpoints)|
    decreases |order|
  {
    hide DecodeWords, EncodeWords, Picked;
    if order == [] {
      assert EncodeWatchpoints(order, watchpoints) + rest == rest;
      NonePicked(order, watchpoints, sofar);
    } else {
      var w := watchpoints[order[0]];
      var after := EncodeWatchpoints(order[1..], watchpoints) + rest;
      var last := [KindCode(w.kind)] + after;
      assert EncodeWatchpoints(order, watchpoints) + rest == EncodeWords([w.id, w.address, w.width]) + last;
      assert last[1..] == after;
      TripleBack(w.id, w.address, w.width, last);
      WatchpointsBack(order[1..], watchpoints, sofar[order[0] := w], rest);
      PickedNext(order, watchpoints, sofar);
    }
  }

  lemma {:induction false} FramesBack(frames: seq<CallFrame>, rest: seq<Byte>)
    ensures DecodeFrames(EncodeFrames(frames) + rest, |frames|) == Done(frames, rest)
    ensures |frames| <= |EncodeFrames(frames)|
  {
    hide DecodeWords, EncodeWords;
    if frames == [] {
      assert EncodeFrames(frames) + rest == rest;
    } else {
      var after := EncodeFrames(frames[1..]) + rest;
      assert EncodeFrames(frames) + rest == EncodeWords([frames[0].returnPc, frames[0].target]) + after;
      PairBack(frames[0].returnPc, frames[0].target, after);
      FramesBack(frames[1..], rest);
      assert [frames[0]] + frames[1..] == frames;
    }
  }
}
