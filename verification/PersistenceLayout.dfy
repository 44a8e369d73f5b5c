/** Where everything stands in a snapshot file, byte by byte. */
module PersistenceLayout {
  import opened Bytes
  import opened BitOps
  import opened Options
  import opened Persistence
  import opened PersistenceProof
  import opened PersistenceSnapshots
  import Expressions
  import Powers
  import Utf8

  /** The little-endian number in `width` bytes of a file. */
  function NumberAt(bytes: seq<Byte>, at: nat, width: nat): nat
    requires at + width <= |bytes|
  {
    LittleEndianValue(bytes[at..at + width])
  }

  /** A number written between two pieces is the number at the end of the first. */
  lemma PlacedNumber(before: seq<Byte>, value: nat, width: nat, after: seq<Byte>)
    requires value < Powers.Pow2(8 * width)
    ensures NumberAt(before + (LittleEndian(value, width) + after), |before|, width) == value
  {
    hide LittleEndian, LittleEndianValue, Powers.Pow2;
    LittleEndianBack(value, width);
    var all := before + (LittleEndian(value, width) + after);
    assert all[|before|..|before| + width] == LittleEndian(value, width);
  }

  lemma {:induction false} PlacedWord(before: seq<Byte>, words: seq<Word64>, after: seq<Byte>, k: nat)
    requires k < |words|
    ensures |EncodeWords(words)| == 8 * |words|
    ensures NumberAt(before + (EncodeWords(words) + after), |before| + 8 * k, 8) == words[k]
    decreases k
  {
    hide NumberAt, LittleEndian, Powers.Pow2;
    WordsLength(words);
    var first, rest := LittleEndian(words[0], 8), EncodeWords(words[1..]);
    assert before + (EncodeWords(words) + after) == before + (first + (rest + after)) == (before + first) + (rest + after);
    if k == 0 {
      Powers.Pow2Bytes();
      PlacedNumber(before, words[0], 8, rest + after);
    } else {
      PlacedWord(before + first, words[1..], after, k - 1);
    }
  }

  lemma {:induction false} WordsLength(words: seq<Word64>)
    ensures |EncodeWords(words)| == 8 * |words|
  {
    hide LittleEndian;
    if words != [] { WordsLength(words[1..]); }
  }

  /** The fields of the header, at their places. */
  ghost predicate HeaderAt(bytes: seq<Byte>, memoryLength: nat, r: Registers)
    requires |bytes| >= 576
  {
    && bytes[..8] == [0x52, 0x56, 0x53, 0x4e, 0x41, 0x50, 0x30, 0x31]   // RVSNAP01
    && NumberAt(bytes, 8, 4) == 4
    && NumberAt(bytes, 12, 8) == memoryLength
    && (forall k: nat :: k < |r.x| == 32 ==> NumberAt(bytes, 20 + 8 * k, 8) == r.x[k])
    && (forall k: nat :: k < |r.f| == 32 ==> NumberAt(bytes, 276 + 8 * k, 8) == r.f[k])
    && NumberAt(bytes, 532, 4) == r.fcsr
    && NumberAt(bytes, 536, 8) == r.pc
    && NumberAt(bytes, 544, 8) == r.instructions
    && NumberAt(bytes, 552, 8) == r.viewAddress
    && NumberAt(bytes, 560, 8) == r.nextBreakpointId
    && NumberAt(bytes, 568, 8) == r.nextWatchpointId
  }

  /** A snapshot file: 576 bytes of magic, version, memory length and registers at fixed places, the tables, the
      memory, and the checksum of all that in the last eight bytes. */
  lemma SnapshotLayout(s: Saved, orders: Orders)
    requires Visits(orders, s.tables) && RegistersFit(s.registers) && SnapshotBytes(s, orders).Some?
    ensures var bytes, memory := SnapshotBytes(s, orders).value, s.memory;
            && |bytes| == 576 + |EncodeTables(s.tables, orders)| + |memory| + 8 <= 64 * 1024 * 1024
            && HeaderAt(bytes, |memory|, s.registers)
            && bytes[|bytes| - 8 - |memory|..|bytes| - 8] == memory
            && NumberAt(bytes, |bytes| - 8, 8) == Checksum(bytes[..|bytes| - 8])
  {
    hide NumberAt, EncodeTables, LittleEndian, EncodeWords, Visits, Checksum, Powers.Pow2, HeaderAt;
    var r := s.registers;
    var w := [r.pc, r.instructions, r.viewAddress, r.nextBreakpointId, r.nextWatchpointId];
    WordsLength(r.x);
    WordsLength(r.f);
    WordsLength(w);
    var tail := EncodeTables(s.tables, orders) + s.memory;
    var payload := MAGIC + EncodeBody(s, orders);
    var seal := LittleEndian(Checksum(payload), 8);
    var bytes := payload + seal;
    Powers.Pow2Bytes();
    PlacedNumber(payload, Checksum(payload), 8, []);
    assert payload + (seal + []) == bytes && bytes[..|bytes| - 8] == payload;
    HeaderPlaces(|s.memory|, r, w, tail + seal);
    assert bytes == Header(|s.memory|, r, w) + (tail + seal);
    assert bytes[|bytes| - 8 - |s.memory|..|bytes| - 8] == s.memory;
  }

  function Header(memoryLength: nat, r: Registers, w: seq<Word64>): seq<Byte>
  {
    MAGIC + (LittleEndian(4, 4) + (LittleEndian(memoryLength, 8) + (EncodeWords(r.x) + (EncodeWords(r.f)
    + (LittleEndian(r.fcsr, 4) + EncodeWords(w))))))
  }

  lemma HeaderPlaces(memoryLength: nat, r: Registers, w: seq<Word64>, tail: seq<Byte>)
    requires RegistersFit(r) && w == [r.pc, r.instructions, r.viewAddress, r.nextBreakpointId, r.nextWatchpointId]
    requires memoryLength < 0x1_0000_0000_0000_0000
    ensures |Header(memoryLength, r, w)| == 576
    ensures HeaderAt(Header(memoryLength, r, w) + tail, memoryLength, r)
  {
    hide NumberAt, LittleEndian, EncodeWords, Powers.Pow2;
    Powers.Pow2Bytes();
    WordsLength(r.x);
    WordsLength(r.f);
    WordsLength(w);
    var bytes := Header(memoryLength, r, w) + tail;
    var p0 := MAGIC;
    var p1 := p0 + LittleEndian(4, 4);
    var p2 := p1 + LittleEndian(memoryLength, 8);
    var p3 := p2 + EncodeWords(r.x);
    var p4 := p3 + EncodeWords(r.f);
    var p5 := p4 + LittleEndian(r.fcsr, 4);
    var q4 := LittleEndian(r.fcsr, 4) + (EncodeWords(w) + tail);
    var q3 := EncodeWords(r.f) + q4;
    var q2 := EncodeWords(r.x) + q3;
    var q1 := LittleEndian(memoryLength, 8) + q2;
    assert bytes == p0 + (LittleEndian(4, 4) + q1);
    assert bytes == p1 + q1;
    assert bytes == p2 + q2;
    assert bytes == p3 + q3;
    assert bytes == p4 + q4;
    assert bytes == p5 + (EncodeWords(w) + tail);
    PlacedNumber(p0, 4, 4, q1);
    PlacedNumber(p1, memoryLength, 8, q2);
    PlacedNumber(p4, r.fcsr, 4, EncodeWords(w) + tail);
    forall k: nat | k < 32 ensures NumberAt(bytes, 20 + 8 * k, 8) == r.x[k] { PlacedWord(p2, r.x, q3, k); }
    forall k: nat | k < 32 ensures NumberAt(bytes, 276 + 8 * k, 8) == r.f[k] { PlacedWord(p3, r.f, q4, k); }
    forall k: nat | k < 5 ensures NumberAt(bytes, 536 + 8 * k, 8) == w[k] { PlacedWord(p5, w, tail, k); }
    assert NumberAt(bytes, 536 + 8 * 0, 8) == w[0] && NumberAt(bytes, 536 + 8 * 1, 8) == w[1] && NumberAt(bytes, 536 + 8 * 2, 8) == w[2];
    assert NumberAt(bytes, 536 + 8 * 3, 8) == w[3] && NumberAt(bytes, 536 + 8 * 4, 8) == w[4];
  }

  // ---- codes and tables ----

  /** The operators in the order of their codes. */
  const BINARY_OPERATORS: seq<Expressions.BinaryOperator> := [
    Expressions.Add, Expressions.Subtract, Expressions.Multiply, Expressions.Divide, Expressions.Remainder,
    Expressions.ShlOp, Expressions.ShrOp, Expressions.AndOp, Expressions.XorOp, Expressions.OrOp]

  const UNARY_OPERATORS: seq<Expressions.UnaryOperator> := [Expressions.UPlus, Expressions.UMinus, Expressions.UNot]

  /** A node's code, and behind it what the node holds: sixteen bytes of two's complement, a text after its length, or
      the operator's place in the order above and then the operands. */
  lemma TreeLayout(tree: Expressions.Tree)
    ensures var bytes := EncodeTree(tree);
            match tree
            case Number(value) => |bytes| == 17 && bytes[0] == 0 && NumberAt(bytes, 1, 16) == value % Powers.Pow2(128)
            case Name(name) => |bytes| >= 5 && bytes[0] == 1 && bytes[5..] == Utf8.Encode(name)
                               && (|bytes| - 5 < Powers.Pow2(32) ==> NumberAt(bytes, 1, 4) == |bytes| - 5)
            case Unary(operator, operand) =>
              |bytes| >= 2 && bytes[0] == 2 && bytes[1] < 3 && UNARY_OPERATORS[bytes[1]] == operator && bytes[2..] == EncodeTree(operand)
            case Binary(operator, left, right) =>
              |bytes| >= 2 && bytes[0] == 3 && bytes[1] < 10 && BINARY_OPERATORS[bytes[1]] == operator
              && bytes[2..] == EncodeTree(left) + EncodeTree(right)
  {
    hide LittleEndian, LittleEndianValue, Powers.Pow2, Expressions.Bits, NumberAt, EncodeText, Utf8.Encode;
    match tree
    case Number(value) => NumberLayout(value);
    case Name(name) => NameLayout(name);
    case _ =>
  }

  lemma NumberLayout(value: int)
    ensures var bytes := EncodeTree(Expressions.Number(value));
            |bytes| == 17 && bytes[0] == 0 && NumberAt(bytes, 1, 16) == value % Powers.Pow2(128)
  {
    hide LittleEndian, NumberAt, Powers.Pow2, Expressions.Bits;
    BitsAreRemainder(value);
    PlacedNumber([0], Expressions.Bits(value), 16, []);
    assert [0] + (LittleEndian(Expressions.Bits(value), 16) + []) == EncodeTree(Expressions.Number(value));
  }

  lemma NameLayout(name: string)
    ensures var bytes := EncodeTree(Expressions.Name(name));
            && |bytes| >= 5 && bytes[0] == 1 && bytes[5..] == Utf8.Encode(name)
            && (|bytes| - 5 < Powers.Pow2(32) ==> NumberAt(bytes, 1, 4) == |bytes| - 5)
  {
    hide LittleEndian, NumberAt, Powers.Pow2, Utf8.Encode;
    var text := Utf8.Encode(name);
    if |text| < Powers.Pow2(32) { PlacedNumber([1], |text|, 4, text); }
    assert EncodeTree(Expressions.Name(name)) == [1] + (LittleEndian(|text|, 4) + text);
  }

  lemma BitsAreRemainder(value: int)
    ensures Expressions.Bits(value) == value % Powers.Pow2(128) < Powers.Pow2(8 * 16)
  {
    hide Powers.Pow2;
    Powers.Pow2Wide();
  }

  lemma SmallNumbers(b: Byte)
    ensures LittleEndian(b, 4) == [b, 0, 0, 0] && LittleEndian(b, 8) == [b, 0, 0, 0, 0, 0, 0, 0]
  {
    var zero: seq<Byte> := [0, 0, 0];
    assert LittleEndian(0, 3) == zero && LittleEndian(0, 4) == [0] + LittleEndian(0, 3);
  }

  /** One entry in every table, and where each part of it goes. */
  lemma KnownTables(t: Tables, orders: Orders)
    requires t.symbols == map[2 := "a"] && t.marks == map["m" := 3] && t.breakpoints == map[4 := 5]
    requires t.conditions == map[4 := Expressions.Unary(Expressions.UMinus, Expressions.Name("x"))]
    requires t.watchpoints == map[6 := Watchpoint(6, 7, 8, Some(WriteAccess))] && t.callStack == [CallFrame(9, 10)]
    requires orders == Orders([2], ["m"], [4], [6])
    ensures Visits(orders, t)
    ensures EncodeTables(t, orders) ==
      [1, 0, 0, 0] + ([2, 0, 0, 0, 0, 0, 0, 0] + [1, 0, 0, 0, 0x61])
      + ([1, 0, 0, 0] + ([1, 0, 0, 0, 0x6d] + [3, 0, 0, 0, 0, 0, 0, 0])
      + ([1, 0, 0, 0] + ([4, 0, 0, 0, 0, 0, 0, 0] + [5, 0, 0, 0, 0, 0, 0, 0] + ([1, 2, 1, 1] + [1, 0, 0, 0, 0x78]))
      + ([1, 0, 0, 0] + ([6, 0, 0, 0, 0, 0, 0, 0] + [7, 0, 0, 0, 0, 0, 0, 0] + [8, 0, 0, 0, 0, 0, 0, 0] + [2])
      + ([1, 0, 0, 0] + ([9, 0, 0, 0, 0, 0, 0, 0] + [10, 0, 0, 0, 0, 0, 0, 0])))))
  {
    hide LittleEndian, EncodeSymbols, EncodeMarks, EncodeBreakpoints, EncodeWatchpoints, EncodeFrames;
    SmallNumbers(1);
    KnownNames(t.symbols, t.marks);
    KnownBreakpoints(t.breakpoints, t.conditions);
    KnownWatchpoints(t.watchpoints);
    KnownFrames();
  }

  lemma KnownNames(symbols: map<Word64, string>, marks: map<string, Word64>)
    requires symbols == map[2 := "a"] && marks == map["m" := 3]
    ensures EncodeSymbols([2], symbols) == [2, 0, 0, 0, 0, 0, 0, 0] + [1, 0, 0, 0, 0x61]
    ensures EncodeMarks(["m"], marks) == [1, 0, 0, 0, 0x6d] + [3, 0, 0, 0, 0, 0, 0, 0]
  {
    hide LittleEndian, EncodeText;
    SmallNumbers(2);
    SmallNumbers(3);
    KnownTexts();
  }

  lemma KnownBreakpoints(breakpoints: map<Word64, Word64>, conditions: map<Word64, Expressions.Tree>)
    requires breakpoints == map[4 := 5] && conditions == map[4 := Expressions.Unary(Expressions.UMinus, Expressions.Name("x"))]
    ensures EncodeBreakpoints([4], breakpoints, conditions)
         == [4, 0, 0, 0, 0, 0, 0, 0] + [5, 0, 0, 0, 0, 0, 0, 0] + ([1, 2, 1, 1] + [1, 0, 0, 0, 0x78])
  {
    hide LittleEndian, EncodeCondition, EncodeWords;
    SmallNumbers(4);
    SmallNumbers(5);
    TwoWords(4, 5);
    KnownCondition();
  }

  lemma KnownWatchpoints(watchpoints: map<Word64, Watchpoint>)
    requires watchpoints == map[6 := Watchpoint(6, 7, 8, Some(WriteAccess))]
    ensures EncodeWatchpoints([6], watchpoints)
         == [6, 0, 0, 0, 0, 0, 0, 0] + [7, 0, 0, 0, 0, 0, 0, 0] + [8, 0, 0, 0, 0, 0, 0, 0] + [2]
  {
    hide LittleEndian, EncodeWords;
    SmallNumbers(6);
    SmallNumbers(7);
    SmallNumbers(8);
    ThreeWords(6, 7, 8);
  }

  lemma KnownFrames()
    ensures EncodeFrames([CallFrame(9, 10)]) == [9, 0, 0, 0, 0, 0, 0, 0] + [10, 0, 0, 0, 0, 0, 0, 0]
  {
    hide LittleEndian, EncodeWords;
    SmallNumbers(9);
    SmallNumbers(10);
    TwoWords(9, 10);
  }

  lemma TwoWords(a: Word64, b: Word64)
    ensures EncodeWords([a, b]) == LittleEndian(a, 8) + LittleEndian(b, 8)
  {
    hide LittleEndian;
    assert EncodeWords([b]) == LittleEndian(b, 8);
  }

  lemma ThreeWords(a: Word64, b: Word64, c: Word64)
    ensures EncodeWords([a, b, c]) == LittleEndian(a, 8) + LittleEndian(b, 8) + LittleEndian(c, 8)
  {
    hide LittleEndian;
    assert [a, b, c][1..] == [b, c];
    TwoWords(b, c);
  }

  lemma KnownCondition()
    ensures EncodeCondition(Some(Expressions.Unary(Expressions.UMinus, Expressions.Name("x")))) == [1, 2, 1, 1] + [1, 0, 0, 0, 0x78]
  {
    hide EncodeText;
    KnownTexts();
    assert EncodeTree(Expressions.Name("x")) == [1] + EncodeText("x");
  }

  lemma KnownTexts()
    ensures EncodeText("a") == [1, 0, 0, 0, 0x61] && EncodeText("m") == [1, 0, 0, 0, 0x6d] && EncodeText("x") == [1, 0, 0, 0, 0x78]
  {
    SmallNumbers(1);
    assert Utf8.Encode("a") == [0x61] && Utf8.Encode("m") == [0x6d] && Utf8.Encode("x") == [0x78];
  }

  /** The published checksums of nothing and of the letter a. */
  lemma KnownChecksums()
    ensures Checksum([]) == 0xcbf2_9ce4_8422_2325 && Checksum([0x61]) == 0xaf63_dc4c_8601_ec8c
  {
    hide BitXor;
    KnownXor();
    var one: seq<Byte> := [0x61];
    assert one[..|one| - 1] == [];
  }

  lemma KnownXor()
    ensures BitXor(0xcbf2_9ce4_8422_2325, 0x61) == 0xcbf2_9ce4_8422_2344
  {
    hide BitXor;
    HalfXor(0x32_fca7_3921_0888c, 1);
    HalfXor(0x65_f94e_7242_11119, 3);
    HalfXor(0xcb_f29c_e484_22232, 6);
    HalfXor(0x197_e539_c908_44464, 0xc);
    HalfXor(0x32f_ca73_9210_888c9, 0x18);
    HalfXor(0x65f_94e7_2421_11192, 0x30);
    HalfXor(0xcbf2_9ce4_8422_2325, 0x61);
  }

  lemma HalfXor(a: nat, b: nat)
    requires a > 0 && b > 0
    ensures BitXor(a, b) == 2 * BitXor(a / 2, b / 2) + if a % 2 != b % 2 then 1 else 0
    ensures b == 1 ==> BitXor(a / 2, b / 2) == a / 2
  {
  }
}
