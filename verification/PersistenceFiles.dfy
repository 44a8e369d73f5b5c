/** The byte writer and the byte reader of the monitor, over a growing buffer and a
    moving position, and the two procedures that use them. */
module PersistenceFiles {
  import opened Bytes
  import opened Options
  import opened Persistence
  import opened PersistenceProof
  import Expressions
  import Utf8

  method ComputeChecksum(bytes: seq<Byte>) returns (checksum: nat)
    ensures checksum == Checksum(bytes)
  {
    hide Mix;
    checksum := 0xcbf2_9ce4_8422_2325;
    var i := 0;
    while i < |bytes|
      invariant 0 <= i <= |bytes|
      invariant checksum == Checksum(bytes[..i])
    {
      assert bytes[..i + 1][..i] == bytes[..i];
      checksum := Mix(checksum, bytes[i]);
      i := i + 1;
    }
    assert bytes[..i] == bytes;
  }

  // ---- writing ----

  lemma Joined(before: seq<Byte>, kind: Byte, code: Byte, first: seq<Byte>, second: seq<Byte>)
    ensures before + [kind] + [code] + first == before + ([kind, code] + first)
    ensures before + [kind] + [code] + first + second == before + ([kind, code] + (first + second))
  {
  }

  class ByteWriter {
    var bytes: seq<Byte>

    constructor (magic: seq<Byte>)
      ensures bytes == magic
    {
      bytes := magic;
    }

    method Put(value: seq<Byte>)
      modifies this
      ensures bytes == old(bytes) + value
    {
      bytes := bytes + value;
    }

    method Text(text: string) returns (ok: bool)
      modifies this
      ensures ok ==> bytes == old(bytes) + EncodeText(text)
      ensures !ok ==> |EncodeText(text)| > MAX_BYTES
    {
      hide LittleEndian, Utf8.Encode;
      var raw := Utf8.Encode(text);
      if |raw| >= 0x1_0000_0000 { return false; }
      Put(LittleEndian(|raw|, 4));
      Put(raw);
      return true;
    }

    method Tree(tree: Expressions.Tree) returns (ok: bool)
      modifies this
      ensures ok ==> bytes == old(bytes) + EncodeTree(tree)
      ensures !ok ==> |EncodeTree(tree)| > MAX_BYTES
      decreases tree
    {
      hide LittleEndian, EncodeText, Expressions.Bits, UnaryCode, BinaryCode;
      ok := true;
      match tree {
        case Number(value) =>
          Put([0]);
          Put(LittleEndian(Expressions.Bits(value), 16));
        case Name(name) =>
          Put([1]);
          ok := Text(name);
        case Unary(operator, operand) =>
          Joined(bytes, 2, UnaryCode(operator), EncodeTree(operand), []);
          Put([2]);
          Put([UnaryCode(operator)]);
          ok := Tree(operand);
        case Binary(operator, left, right) =>
          Joined(bytes, 3, BinaryCode(operator), EncodeTree(left), EncodeTree(right));
          Put([3]);
          Put([BinaryCode(operator)]);
          ok := Tree(left);
          if ok { ok := Tree(right); }
      }
    }

    method Words(words: seq<Word64>)
      modifies this
      ensures bytes == old(bytes) + EncodeWords(words)
    {
      hide LittleEndian;
      var i := 0;
      while i < |words|
        invariant 0 <= i <= |words|
        invariant bytes + EncodeWords(words[i..]) == old(bytes) + EncodeWords(words)
      {
        assert words[i..][1..] == words[i + 1..];
        Put(LittleEndian(words[i], 8));
        i := i + 1;
      }
      assert words[i..] == [];
    }

    method Symbols(order: seq<Word64>, symbols: map<Word64, string>) returns (ok: bool)
      requires forall k :: k in order ==> k in symbols
      modifies this
      ensures ok ==> bytes == old(bytes) + EncodeSymbols(order, symbols)
      ensures !ok ==> |EncodeSymbols(order, symbols)| > MAX_BYTES
    {
      hide LittleEndian, EncodeText;
      var i := 0;
      while i < |order|
        invariant 0 <= i <= |order|
        invariant bytes + EncodeSymbols(order[i..], symbols) == old(bytes) + EncodeSymbols(order, symbols)
        invariant |EncodeSymbols(order[i..], symbols)| <= |EncodeSymbols(order, symbols)|
      {
        assert order[i..][1..] == order[i + 1..];
        Put(LittleEndian(order[i], 8));
        ok := Text(symbols[order[i]]);
        if !ok { return; }
        i := i + 1;
      }
      assert order[i..] == [];
      return true;
    }

    method Marks(order: seq<string>, marks: map<string, Word64>) returns (ok: bool)
      requires forall k :: k in order ==> k in marks
      modifies this
      ensures ok ==> bytes == old(bytes) + EncodeMarks(order, marks)
      ensures !ok ==> |EncodeMarks(order, marks)| > MAX_BYTES
    {
      hide LittleEndian, EncodeText;
      var i := 0;
      while i < |order|
        invariant 0 <= i <= |order|
        invariant bytes + EncodeMarks(order[i..], marks) == old(bytes) + EncodeMarks(order, marks)
        invariant |EncodeMarks(order[i..], marks)| <= |EncodeMarks(order, marks)|
      {
        assert order[i..][1..] == order[i + 1..];
        ok := Text(order[i]);
        if !ok { return; }
        Put(LittleEndian(marks[order[i]], 8));
        i := i + 1;
      }
      assert order[i..] == [];
      return true;
    }

    method Condition(condition: Option<Expressions.Tree>) returns (ok: bool)
      modifies this
      ensures ok ==> bytes == old(bytes) + EncodeCondition(condition)
      ensures !ok ==> |EncodeCondition(condition)| > MAX_BYTES
    {
      hide EncodeTree;
      if condition.None? {
        Put([0]);
        return true;
      }
      Put([1]);
      ok := Tree(condition.value);
    }

    method Breakpoints(order: seq<Word64>, breakpoints: map<Word64, Word64>, conditions: Conditions) returns (ok: bool)
      requires forall k :: k in order ==> k in breakpoints
      modifies this
      ensures ok ==> bytes == old(bytes) + EncodeBreakpoints(order, breakpoints, conditions)
      ensures !ok ==> |EncodeBreakpoints(order, breakpoints, conditions)| > MAX_BYTES
    {
      hide EncodeCondition, ConditionAt, EncodeWords;
      var i := 0;
      while i < |order|
        invariant 0 <= i <= |order|
        invariant bytes + EncodeBreakpoints(order[i..], breakpoints, conditions)
               == old(bytes) + EncodeBreakpoints(order, breakpoints, conditions)
        invariant |EncodeBreakpoints(order[i..], breakpoints, conditions)| <= |EncodeBreakpoints(order, breakpoints, conditions)|
      {
        assert order[i..][1..] == order[i + 1..];
        Words([order[i], breakpoints[order[i]]]);
        ok := Condition(ConditionAt(conditions, order[i]));
        if !ok { return; }
        i := i + 1;
      }
      assert order[i..] == [];
      return true;
    }

    method Watchpoints(order: seq<Word64>, watchpoints: map<Word64, Watchpoint>)
      requires forall k :: k in order ==> k in watchpoints
      modifies this
      ensures bytes == old(bytes) + EncodeWatchpoints(order, watchpoints)
    {
      hide EncodeWords;
      var i := 0;
      while i < |order|
        invariant 0 <= i <= |order|
        invariant bytes + EncodeWatchpoints(order[i..], watchpoints) == old(bytes) + EncodeWatchpoints(order, watchpoints)
      {
        assert order[i..][1..] == order[i + 1..];
        var w := watchpoints[order[i]];
        Words([w.id, w.address, w.width]);
        Put([KindCode(w.kind)]);
        i := i + 1;
      }
      assert order[i..] == [];
    }

    method Frames(frames: seq<CallFrame>)
      modifies this
      ensures bytes == old(bytes) + EncodeFrames(frames)
    {
      hide EncodeWords;
      var i := 0;
      while i < |frames|
        invariant 0 <= i <= |frames|
        invariant bytes + EncodeFrames(frames[i..]) == old(bytes) + EncodeFrames(frames)
      {
        assert frames[i..][1..] == frames[i + 1..];
        Words([frames[i].returnPc, frames[i].target]);
        i := i + 1;
      }
      assert frames[i..] == [];
    }

    method Tables(t: Tables, orders: Orders) returns (ok: bool)
      requires Visits(orders, t)
      modifies this
      ensures ok ==> bytes == old(bytes) + EncodeTables(t, orders)
      ensures !ok ==> |EncodeTables(t, orders)| > MAX_BYTES
    {
      hide LittleEndian, EncodeSymbols, EncodeMarks, EncodeBreakpoints, EncodeWatchpoints, EncodeFrames, Counted;
      ghost var e1 := EncodeSymbols(orders.symbols, t.symbols);
      ghost var e2 := EncodeMarks(orders.marks, t.marks);
      ghost var e3 := EncodeBreakpoints(orders.breakpoints, t.breakpoints, t.conditions);
      ghost var e4 := EncodeWatchpoints(orders.watchpoints, t.watchpoints);
      ghost var e5 := EncodeFrames(t.callStack);
      TablesLength(t, orders);
      Put(LittleEndian(|orders.symbols|, 4));
      ok := Symbols(orders.symbols, t.symbols);
      if !ok { return; }
      CountedAppend(old(bytes), |orders.symbols|, e1);
      ghost var b1 := bytes;
      Put(LittleEndian(|orders.marks|, 4));
      ok := Marks(orders.marks, t.marks);
      if !ok { return; }
      CountedAppend(b1, |orders.marks|, e2);
      ghost var b2 := bytes;
      Put(LittleEndian(|orders.breakpoints|, 4));
      ok := Breakpoints(orders.breakpoints, t.breakpoints, t.conditions);
      if !ok { return; }
      CountedAppend(b2, |orders.breakpoints|, e3);
      ghost var b3 := bytes;
      Put(LittleEndian(|orders.watchpoints|, 4));
      Watchpoints(orders.watchpoints, t.watchpoints);
      CountedAppend(b3, |orders.watchpoints|, e4);
      ghost var b4 := bytes;
      Put(LittleEndian(|t.callStack|, 4));
      Frames(t.callStack);
      CountedAppend(b4, |t.callStack|, e5);
      FivePieces(old(bytes), Counted(|orders.symbols|, e1), Counted(|orders.marks|, e2), Counted(|orders.breakpoints|, e3),
                 Counted(|orders.watchpoints|, e4), Counted(|t.callStack|, e5));
    }

    method Registers(r: Registers)
      modifies this
      ensures bytes == old(bytes) + EncodeRegisters(r)
    {
      hide LittleEndian, EncodeWords;
      Words(r.x);
      Words(r.f);
      Put(LittleEndian(r.fcsr, 4));
      Words([r.pc, r.instructions, r.viewAddress, r.nextBreakpointId, r.nextWatchpointId]);
    }

    method Finish() returns (sealed: seq<Byte>)
      ensures sealed == Sealed(bytes)
    {
      var checksum := ComputeChecksum(bytes);
      return bytes + LittleEndian(checksum, 8);
    }
  }

  lemma CountedAppend(start: seq<Byte>, count: nat, entries: seq<Byte>)
    ensures start + LittleEndian(count, 4) + entries == start + Counted(count, entries)
  {
  }

  lemma TablesLength(t: Tables, orders: Orders)
    requires Visits(orders, t)
    ensures |EncodeTables(t, orders)| >= |EncodeSymbols(orders.symbols, t.symbols)|
    ensures |EncodeTables(t, orders)| >= |EncodeMarks(orders.marks, t.marks)|
    ensures |EncodeTables(t, orders)| >= |EncodeBreakpoints(orders.breakpoints, t.breakpoints, t.conditions)|
  {
  }

  lemma FivePieces(start: seq<Byte>, a: seq<Byte>, b: seq<Byte>, c: seq<Byte>, d: seq<Byte>, e: seq<Byte>)
    ensures start + a + b + c + d + e == start + (a + (b + (c + (d + e))))
  {
  }

  method Save(s: Saved, orders: Orders) returns (file: Option<seq<Byte>>)
    requires Visits(orders, s.tables)
    ensures file == SnapshotBytes(s, orders)
  {
    hide LittleEndian, EncodeRegisters, EncodeTables, Checksum, Visits;
    var writer := new ByteWriter(MAGIC);
    writer.Put(LittleEndian(VERSION, 4));
    writer.Put(LittleEndian(|s.memory|, 8));
    writer.Registers(s.registers);
    var ok := writer.Tables(s.tables, orders);
    if !ok { return None; }
    writer.Put(s.memory);
    FivePieces(MAGIC, LittleEndian(VERSION, 4), LittleEndian(|s.memory|, 8), EncodeRegisters(s.registers),
               EncodeTables(s.tables, orders), s.memory);
    var sealed := writer.Finish();
    return if |sealed| > MAX_BYTES then None else Some(sealed);
  }

  // ---- reading ----

  /** What a reading method returns and leaves, against the reading of the same bytes. */
  ghost predicate Reads<T>(reading: Reading<T>, r: Option<T>, rest: seq<Byte>)
  {
    match reading case Fail => r == None case Done(value, after) => r == Some(value) && rest == after
  }

  class ByteReader {
    const bytes: seq<Byte>
    var position: nat

    ghost predicate Valid()
      reads this
    {
      position <= |bytes|
    }

    function Rest(): seq<Byte>
      requires Valid()
      reads this
    {
      bytes[position..]
    }

    /** A reader at the first byte of a file's body. */
    constructor (body: seq<Byte>)
      ensures Valid() && Rest() == body
    {
      bytes, position := body, 0;
    }

    method Take(count: nat) returns (r: Option<seq<Byte>>)
      requires Valid()
      modifies this
      ensures Valid() && Reads(Persistence.Take(old(Rest()), count), r, Rest())
    {
      var end := position + count;
      if end > |bytes| { return None; }
      assert bytes[position..][..count] == bytes[position..end] && bytes[position..][count..] == bytes[end..];
      r := Some(bytes[position..end]);
      position := end;
    }

    method Number(width: nat) returns (r: Option<nat>)
      requires Valid()
      modifies this
      ensures Valid() && Reads(DecodeNumber(old(Rest()), width), r, Rest())
    {
      hide LittleEndianValue;
      var raw := Take(width);
      return match raw case None => None case Some(value) => Some(LittleEndianValue(value));
    }

    method Word() returns (r: Option<Word64>)
      requires Valid()
      modifies this
      ensures Valid() && Reads(DecodeWord(old(Rest())), r, Rest())
    {
      hide DecodeNumber;
      var value := Number(8);
      if value.Some? && value.value < 0x1_0000_0000_0000_0000 { return Some(value.value); }
      return None;
    }

    method Count() returns (r: Option<nat>)
      requires Valid()
      modifies this
      ensures Valid() && Reads(DecodeCount(old(Rest())), r, Rest())
    {
      hide DecodeNumber;
      r := Number(4);
      if r.Some? && r.value > MAX_COUNT { return None; }
    }

    method Text() returns (r: Option<string>)
      requires Valid()
      modifies this
      ensures Valid() && Reads(DecodeText(old(Rest())), r, Rest())
    {
      hide DecodeNumber, Utf8.Decode;
      var length := Number(4);
      if length.None? || length.value > MAX_BYTES { return None; }
      var raw := Take(length.value);
      if raw.None? { return None; }
      return Utf8.Decode(raw.value);
    }

    method Tree(depth: nat) returns (r: Option<Expressions.Tree>)
      requires Valid()
      modifies this
      ensures Valid() && Reads(DecodeTree(old(Rest()), depth), r, Rest())
      decreases |bytes| - position
    {
      hide DecodeNumber, DecodeText, Expressions.FromBits;
      if depth > MAX_TREE_DEPTH { return None; }
      var kind := Take(1);
      if kind.None? { return None; }
      assert old(Rest())[1..] == Rest();
      if kind.value[0] == 0 {
        var value := Number(16);
        return if value.None? then None else Some(Expressions.Number(Expressions.FromBits(value.value)));
      } else if kind.value[0] == 1 {
        var name := Text();
        return if name.None? then None else Some(Expressions.Name(name.value));
      } else if kind.value[0] == 2 {
        var code := Take(1);
        if code.None? || UnaryFor(code.value[0]).None? { return None; }
        var operand := Tree(depth + 1);
        return if operand.None? then None else Some(Expressions.Unary(UnaryFor(code.value[0]).value, operand.value));
      } else if kind.value[0] == 3 {
        r := BinaryNode(depth);
      } else {
        return None;
      }
    }

    /** The rest of a binary node, after its kind. */
    method BinaryNode(depth: nat) returns (r: Option<Expressions.Tree>)
      requires Valid() && depth <= MAX_TREE_DEPTH
      modifies this
      ensures Valid() && Reads(DecodeTree([3] + old(Rest()), depth), r, Rest())
      decreases |bytes| - position, 1
    {
      hide DecodeNumber, DecodeText, Expressions.FromBits, BinaryFor;
      assert ([3] + Rest())[1..] == Rest();
      var code := Take(1);
      if code.None? || BinaryFor(code.value[0]).None? { return None; }
      var left := Tree(depth + 1);
      if left.None? { return None; }
      var right := Tree(depth + 1);
      return if right.None? then None
             else Some(Expressions.Binary(BinaryFor(code.value[0]).value, left.value, right.value));
    }

    method Words(count: nat) returns (r: Option<seq<Word64>>)
      requires Valid()
      modifies this
      ensures Valid() && Reads(DecodeWords(old(Rest()), count), r, Rest())
    {
      hide DecodeWord;
      var words: seq<Word64> := [];
      assert forall more: seq<Word64> :: words + more == more;
      var i := 0;
      while i < count
        invariant 0 <= i <= count && Valid() && |words| == i
        invariant DecodeWords(old(Rest()), count) ==
                  match DecodeWords(Rest(), count - i) case Fail => Fail case Done(more, after) => Done(words + more, after)
      {
        ghost var before := Rest();
        var word := Word();
        if word.None? { return None; }
        WordsNext(words, word.value, before, Rest(), count - i);
        words := words + [word.value];
        i := i + 1;
      }
      assert words + [] == words;
      return Some(words);
    }

    method Symbols() returns (r: Option<map<Word64, string>>)
      requires Valid()
      modifies this
      ensures Valid() && Reads(DecodeSymbolTable(old(Rest())), r, Rest())
    {
      hide DecodeWord, DecodeText, DecodeCount;
      var count := Count();
      if count.None? { return None; }
      ghost var entries := Rest();
      var table: map<Word64, string> := map[];
      var i := 0;
      while i < count.value
        invariant 0 <= i <= count.value && Valid()
        invariant DecodeSymbols(entries, count.value, map[]) == DecodeSymbols(Rest(), count.value - i, table)
      {
        var address := Word();
        if address.None? { return None; }
        var name := Text();
        if name.None? || address.value in table { return None; }
        table := table[address.value := name.value];
        i := i + 1;
      }
      return Some(table);
    }

    method Marks() returns (r: Option<map<string, Word64>>)
      requires Valid()
      modifies this
      ensures Valid() && Reads(DecodeMarkTable(old(Rest())), r, Rest())
    {
      hide DecodeWord, DecodeText, DecodeCount;
      var count := Count();
      if count.None? { return None; }
      ghost var entries := Rest();
      var table: map<string, Word64> := map[];
      var i := 0;
      while i < count.value
        invariant 0 <= i <= count.value && Valid()
        invariant DecodeMarks(entries, count.value, map[]) == DecodeMarks(Rest(), count.value - i, table)
      {
        var name := Text();
        if name.None? { return None; }
        var address := Word();
        if address.None? || name.value in table { return None; }
        table := table[name.value := address.value];
        i := i + 1;
      }
      return Some(table);
    }

    method Condition() returns (r: Option<Option<Expressions.Tree>>)
      requires Valid()
      modifies this
      ensures Valid() && Reads(DecodeCondition(old(Rest())), r, Rest())
    {
      hide DecodeTree;
      var flag := Take(1);
      if flag.None? { return None; }
      assert old(Rest())[1..] == Rest();
      if flag.value[0] == 0 { return Some(None); }
      var tree := Tree(0);
      return if tree.None? then None else Some(Some(tree.value));
    }

    method Breakpoints() returns (r: Option<BreakpointTables>)
      requires Valid()
      modifies this
      ensures Valid() && Reads(DecodeBreakpointTable(old(Rest())), r, Rest())
    {
      hide DecodeWords, DecodeCondition, DecodeCount;
      var count := Count();
      if count.None? { return None; }
      ghost var entries := Rest();
      var breakpoints: map<Word64, Word64>, conditions: Conditions := map[], map[];
      var i := 0;
      while i < count.value
        invariant 0 <= i <= count.value && Valid()
        invariant DecodeBreakpoints(entries, count.value, (map[], map[]))
               == DecodeBreakpoints(Rest(), count.value - i, (breakpoints, conditions))
      {
        var entry := Words(2);
        if entry.None? || entry.value[0] in breakpoints { return None; }
        var condition := Condition();
        if condition.None? { return None; }
        breakpoints := breakpoints[entry.value[0] := entry.value[1]];
        if condition.value.Some? { conditions := conditions[entry.value[0] := condition.value.value]; }
        i := i + 1;
      }
      return Some((breakpoints, conditions));
    }

    method Watchpoints() returns (r: Option<map<Word64, Watchpoint>>)
      requires Valid()
      modifies this
      ensures Valid() && Reads(DecodeWatchpointTable(old(Rest())), r, Rest())
    {
      hide DecodeWords, DecodeCount;
      var count := Count();
      if count.None? { return None; }
      ghost var entries := Rest();
      var table: map<Word64, Watchpoint> := map[];
      var i := 0;
      while i < count.value
        invariant 0 <= i <= count.value && Valid()
        invariant DecodeWatchpoints(entries, count.value, map[]) == DecodeWatchpoints(Rest(), count.value - i, table)
      {
        var entry := Words(3);
        if entry.None? { return None; }
        ghost var after := Rest();
        var code := Take(1);
        if code.None? || KindFor(code.value[0]).None? || entry.value[0] in table { return None; }
        assert after[1..] == Rest();
        table := table[entry.value[0] :=
          Watchpoint(entry.value[0], entry.value[1], entry.value[2], KindFor(code.value[0]).value)];
        i := i + 1;
      }
      return Some(table);
    }

    method Frames() returns (r: Option<seq<CallFrame>>)
      requires Valid()
      modifies this
      ensures Valid() && Reads(DecodeCallStack(old(Rest())), r, Rest())
    {
      hide DecodeWords, DecodeCount;
      var count := Count();
      if count.None? { return None; }
      ghost var entries := Rest();
      var frames: seq<CallFrame> := [];
      assert forall more: seq<CallFrame> :: frames + more == more;
      var i := 0;
      while i < count.value
        invariant 0 <= i <= count.value && Valid()
        invariant DecodeFrames(entries, count.value) ==
                  match DecodeFrames(Rest(), count.value - i) case Fail => Fail case Done(more, after) => Done(frames + more, after)
      {
        ghost var before := Rest();
        var entry := Words(2);
        if entry.None? { return None; }
        assert entry.value == [entry.value[0], entry.value[1]];
        FramesNext(frames, CallFrame(entry.value[0], entry.value[1]), before, Rest(), count.value - i);
        frames := frames + [CallFrame(entry.value[0], entry.value[1])];
        i := i + 1;
      }
      assert frames + [] == frames;
      return Some(frames);
    }

    method Registers() returns (r: Option<Registers>)
      requires Valid()
      modifies this
      ensures Valid() && Reads(DecodeRegisters(old(Rest())), r, Rest())
    {
      hide DecodeWords, DecodeNumber;
      var x := Words(32);
      if x.None? { return None; }
      var f := Words(32);
      if f.None? { return None; }
      var fcsr := Number(4);
      if fcsr.None? { return None; }
      var w := Words(5);
      if w.None? || fcsr.value >= 0x1_0000_0000 { return None; }
      return Some(Persistence.Registers(x.value, f.value, fcsr.value, w.value[0], w.value[1], w.value[2], w.value[3], w.value[4]));
    }

    method AllTables() returns (r: Option<Tables>)
      requires Valid()
      modifies this
      ensures Valid() && Reads(DecodeTables(old(Rest())), r, Rest())
    {
      hide DecodeSymbolTable, DecodeMarkTable, DecodeBreakpointTable, DecodeWatchpointTable, DecodeCallStack;
      var symbols := Symbols();
      if symbols.None? { return None; }
      var marks := Marks();
      if marks.None? { return None; }
      var breakpoints := Breakpoints();
      if breakpoints.None? { return None; }
      var watchpoints := Watchpoints();
      if watchpoints.None? { return None; }
      var frames := Frames();
      if frames.None? { return None; }
      return Some(Persistence.Tables(symbols.value, marks.value, breakpoints.value.0, breakpoints.value.1, watchpoints.value, frames.value));
    }
  }

  lemma WordsNext(words: seq<Word64>, word: Word64, before: seq<Byte>, rest: seq<Byte>, count: nat)
    requires count > 0 && DecodeWord(before) == Done(word, rest)
    ensures (match DecodeWords(before, count) case Fail => Fail case Done(more, after) => Done(words + more, after))
         == match DecodeWords(rest, count - 1) case Fail => Fail case Done(more, after) => Done(words + [word] + more, after)
  {
    hide DecodeWord;
    match DecodeWords(rest, count - 1) {
      case Fail =>
      case Done(more, _) => assert words + ([word] + more) == words + [word] + more;
    }
  }

  lemma FramesNext(frames: seq<CallFrame>, frame: CallFrame, before: seq<Byte>, rest: seq<Byte>, count: nat)
    requires count > 0 && DecodeWords(before, 2) == Done([frame.returnPc, frame.target], rest)
    ensures (match DecodeFrames(before, count) case Fail => Fail case Done(more, after) => Done(frames + more, after))
         == match DecodeFrames(rest, count - 1) case Fail => Fail case Done(more, after) => Done(frames + [frame] + more, after)
  {
    hide DecodeWords;
    match DecodeFrames(rest, count - 1) {
      case Fail =>
      case Done(more, _) => assert frames + ([frame] + more) == frames + [frame] + more;
    }
  }

  /** Reads a snapshot file back: magic and checksum first, then every field, and nothing after them. */
  method Load(file: seq<Byte>) returns (s: Option<Saved>)
    ensures s == DecodeSnapshot(file)
  {
    hide DecodeNumber, DecodeRegisters, DecodeTables, Checksum, LittleEndianValue;
    if |file| > MAX_BYTES { return None; }
    if |file| < 16 || file[..8] != MAGIC { return None; }
    var payload := file[..|file| - 8];
    var checksum := ComputeChecksum(payload);
    if checksum != LittleEndianValue(file[|file| - 8..]) { return None; }
    var reader := new ByteReader(payload[8..]);
    var version := reader.Number(4);
    if version != Some(VERSION) { return None; }
    var length := reader.Number(8);
    if length.None? { return None; }
    var registers := reader.Registers();
    if registers.None? { return None; }
    var tables := reader.AllTables();
    if tables.None? || length.value > MAX_BYTES { return None; }
    var memory := reader.Take(length.value);
    if memory.None? || reader.position != |reader.bytes| { return None; }
    return Some(Saved(registers.value, tables.value, memory.value));
  }
}
