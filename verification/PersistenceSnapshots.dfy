/** Whole snapshot files: saving and reading back, and what the checksum detects. */
module PersistenceSnapshots {
  import opened Bytes
  import opened Options
  import opened BitOps
  import opened Persistence
  import opened PersistenceProof
  import Expressions
  import Powers

  lemma CountBack(count: nat, rest: seq<Byte>)
    requires count < 0x1_0000_0000
    ensures DecodeCount(LittleEndian(count, 4) + rest) == if count <= MAX_COUNT then Done(count, rest) else Fail
  {
    hide DecodeNumber;
    Number32Back(count, rest);
  }

  lemma CountedSplit(count: nat, entries: seq<Byte>, rest: seq<Byte>)
    ensures Counted(count, entries) + rest == LittleEndian(count, 4) + (entries + rest)
  {
  }

  lemma SymbolTableBack(order: seq<Word64>, symbols: map<Word64, string>, rest: seq<Byte>)
    requires Lists(order, symbols.Keys) && |EncodeSymbols(order, symbols)| <= MAX_BYTES
    ensures DecodeSymbolTable(Counted(|order|, EncodeSymbols(order, symbols)) + rest) ==
            if |symbols| <= MAX_COUNT then Done(symbols, rest) else Fail
  {
    hide DecodeCount, DecodeSymbols, EncodeSymbols, Counted, Picked;
    ListsLength(order, symbols.Keys);
    SymbolsBack(order, symbols, map[], rest);
    PickedAll(order, symbols);
    CountedSplit(|order|, EncodeSymbols(order, symbols), rest);
    CountBack(|order|, EncodeSymbols(order, symbols) + rest);
  }

  lemma MarkTableBack(order: seq<string>, marks: map<string, Word64>, rest: seq<Byte>)
    requires Lists(order, marks.Keys) && |EncodeMarks(order, marks)| <= MAX_BYTES
    ensures DecodeMarkTable(Counted(|order|, EncodeMarks(order, marks)) + rest) ==
            if |marks| <= MAX_COUNT then Done(marks, rest) else Fail
  {
    hide DecodeCount, DecodeMarks, EncodeMarks, Counted, Picked;
    ListsLength(order, marks.Keys);
    MarksBack(order, marks, map[], rest);
    PickedAll(order, marks);
    CountedSplit(|order|, EncodeMarks(order, marks), rest);
    CountBack(|order|, EncodeMarks(order, marks) + rest);
  }

  /** The conditions of existing breakpoints. */
  function Attached(t: Tables): Conditions
  {
    map k | k in t.conditions && k in t.breakpoints :: t.conditions[k]
  }

  predicate AttachedShallow(t: Tables)
  {
    forall k :: k in t.conditions && k in t.breakpoints ==> Height(t.conditions[k]) <= MAX_TREE_DEPTH
  }

  lemma AttachedPicked(order: seq<Word64>, t: Tables)
    requires Lists(order, t.breakpoints.Keys)
    ensures Added(order, t.breakpoints, t.conditions, (map[], map[])) == (t.breakpoints, Attached(t))
    ensures Shallow(order, t.conditions) == AttachedShallow(t)
  {
    hide Height;
    assert map[] + Picked(order, t.breakpoints) == t.breakpoints;
    assert map[] + Picked(order, t.conditions) == Attached(t);
  }

  lemma BreakpointTableBack(order: seq<Word64>, t: Tables, rest: seq<Byte>)
    requires Lists(order, t.breakpoints.Keys) && ConditionsFit(t.conditions)
    requires |EncodeBreakpoints(order, t.breakpoints, t.conditions)| <= MAX_BYTES
    ensures DecodeBreakpointTable(Counted(|order|, EncodeBreakpoints(order, t.breakpoints, t.conditions)) + rest) ==
            if |t.breakpoints| <= MAX_COUNT && AttachedShallow(t) then Done((t.breakpoints, Attached(t)), rest) else Fail
  {
    hide DecodeCount, DecodeBreakpoints, EncodeBreakpoints, Counted, Added, Shallow, AttachedShallow, Attached, ConditionsFit;
    ListsLength(order, t.breakpoints.Keys);
    BreakpointsBack(order, t.breakpoints, t.conditions, (map[], map[]), rest);
    AttachedPicked(order, t);
    CountedSplit(|order|, EncodeBreakpoints(order, t.breakpoints, t.conditions), rest);
    CountBack(|order|, EncodeBreakpoints(order, t.breakpoints, t.conditions) + rest);
  }

  lemma WatchpointTableBack(order: seq<Word64>, watchpoints: map<Word64, Watchpoint>, rest: seq<Byte>)
    requires Lists(order, watchpoints.Keys) && Numbered(watchpoints) && |EncodeWatchpoints(order, watchpoints)| <= MAX_BYTES
    ensures DecodeWatchpointTable(Counted(|order|, EncodeWatchpoints(order, watchpoints)) + rest) ==
            if |watchpoints| <= MAX_COUNT then Done(watchpoints, rest) else Fail
  {
    hide DecodeCount, DecodeWatchpoints, EncodeWatchpoints, Counted, Picked;
    ListsLength(order, watchpoints.Keys);
    WatchpointsBack(order, watchpoints, map[], rest);
    PickedAll(order, watchpoints);
    CountedSplit(|order|, EncodeWatchpoints(order, watchpoints), rest);
    CountBack(|order|, EncodeWatchpoints(order, watchpoints) + rest);
  }

  lemma CallStackBack(frames: seq<CallFrame>, rest: seq<Byte>)
    requires |EncodeFrames(frames)| <= MAX_BYTES
    ensures DecodeCallStack(Counted(|frames|, EncodeFrames(frames)) + rest) ==
            if |frames| <= MAX_COUNT then Done(frames, rest) else Fail
  {
    hide DecodeCount, DecodeFrames, EncodeFrames, Counted;
    FramesBack(frames, rest);
    CountedSplit(|frames|, EncodeFrames(frames), rest);
    CountBack(|frames|, EncodeFrames(frames) + rest);
  }

  // ---- sections ----

  predicate RegistersFit(r: Registers) { |r.x| == 32 && |r.f| == 32 }

  lemma RegistersBack(r: Registers, rest: seq<Byte>)
    requires RegistersFit(r)
    ensures DecodeRegisters(EncodeRegisters(r) + rest) == Done(r, rest)
  {
    hide DecodeWords, EncodeWords, DecodeNumber, LittleEndian;
    var last := [r.pc, r.instructions, r.viewAddress, r.nextBreakpointId, r.nextWatchpointId];
    var r3 := EncodeWords(last) + rest;
    var r2 := LittleEndian(r.fcsr, 4) + r3;
    var r1 := EncodeWords(r.f) + r2;
    assert EncodeRegisters(r) + rest == EncodeWords(r.x) + r1;
    WordsBack(r.x, r1);
    WordsBack(r.f, r2);
    Number32Back(r.fcsr, r3);
    WordsBack(last, rest);
  }

  /** What every monitor's tables keep. */
  predicate TablesFit(t: Tables)
  {
    ConditionsFit(t.conditions) && Numbered(t.watchpoints)
  }

  /** The tables a file can hold. */
  predicate Within(t: Tables)
  {
    |t.symbols| <= MAX_COUNT && |t.marks| <= MAX_COUNT && |t.breakpoints| <= MAX_COUNT
    && |t.watchpoints| <= MAX_COUNT && |t.callStack| <= MAX_COUNT && AttachedShallow(t)
  }

  lemma TablesBack(t: Tables, orders: Orders, rest: seq<Byte>)
    requires Visits(orders, t) && TablesFit(t) && |EncodeTables(t, orders)| <= MAX_BYTES
    ensures DecodeTables(EncodeTables(t, orders) + rest) ==
            if Within(t) then Done(t.(conditions := Attached(t)), rest) else Fail
  {
    hide DecodeSymbolTable, DecodeMarkTable, DecodeBreakpointTable, DecodeWatchpointTable, DecodeCallStack,
         EncodeSymbols, EncodeMarks, EncodeBreakpoints, EncodeWatchpoints, EncodeFrames, LittleEndian,
         ConditionsFit, Numbered, AttachedShallow, Attached;
    var e1 := Counted(|orders.symbols|, EncodeSymbols(orders.symbols, t.symbols));
    var e2 := Counted(|orders.marks|, EncodeMarks(orders.marks, t.marks));
    var e3 := Counted(|orders.breakpoints|, EncodeBreakpoints(orders.breakpoints, t.breakpoints, t.conditions));
    var e4 := Counted(|orders.watchpoints|, EncodeWatchpoints(orders.watchpoints, t.watchpoints));
    var e5 := Counted(|t.callStack|, EncodeFrames(t.callStack));
    FiveParts(e1, e2, e3, e4, e5, rest);
    SymbolTableBack(orders.symbols, t.symbols, e2 + (e3 + (e4 + (e5 + rest))));
    MarkTableBack(orders.marks, t.marks, e3 + (e4 + (e5 + rest)));
    BreakpointTableBack(orders.breakpoints, t, e4 + (e5 + rest));
    WatchpointTableBack(orders.watchpoints, t.watchpoints, e5 + rest);
    CallStackBack(t.callStack, rest);
  }

  lemma FiveParts(a: seq<Byte>, b: seq<Byte>, c: seq<Byte>, d: seq<Byte>, e: seq<Byte>, rest: seq<Byte>)
    ensures (a + (b + (c + (d + e)))) + rest == a + (b + (c + (d + (e + rest))))
    ensures |a + (b + (c + (d + e)))| == |a| + |b| + |c| + |d| + |e|
  {
  }

  lemma MemoryLengthBack(length: nat, rest: seq<Byte>)
    requires length <= MAX_BYTES
    ensures DecodeNumber(LittleEndian(length, 8) + rest, 8) == Done(length, rest)
  {
    hide Powers.Pow2, DecodeNumber;
    Powers.Pow2Bytes();
    NumberBack(length, 8, rest);
  }

  lemma BodyBack(s: Saved, orders: Orders)
    requires Visits(orders, s.tables) && RegistersFit(s.registers) && TablesFit(s.tables)
    requires |EncodeBody(s, orders)| <= MAX_BYTES
    ensures DecodeBody(EncodeBody(s, orders)) ==
            if Within(s.tables) then Some(s.(tables := s.tables.(conditions := Attached(s.tables)))) else None
  {
    hide DecodeNumber, LittleEndian, DecodeRegisters, EncodeRegisters, DecodeTables, EncodeTables, Take,
         Visits, TablesFit, RegistersFit, Within, Attached;
    var r3 := EncodeTables(s.tables, orders) + s.memory;
    var r2 := EncodeRegisters(s.registers) + r3;
    var r1 := LittleEndian(|s.memory|, 8) + r2;
    assert EncodeBody(s, orders) == LittleEndian(VERSION, 4) + r1;
    Number32Back(VERSION, r1);
    MemoryLengthBack(|s.memory|, r2);
    RegistersBack(s.registers, r3);
    TablesBack(s.tables, orders, s.memory);
    SplitTaken(s.memory, []);
    assert s.memory + [] == s.memory;
  }

  lemma SealBack(payload: seq<Byte>)
    requires |payload| >= 8 && payload[..8] == MAGIC
    ensures Unsealed(Sealed(payload)) == Some(payload[8..])
  {
    hide Checksum, LittleEndian, LittleEndianValue, Powers.Pow2;
    var bytes := Sealed(payload);
    assert bytes[..|bytes| - 8] == payload && bytes[|bytes| - 8..] == LittleEndian(Checksum(payload), 8);
    assert bytes[..8] == payload[..8];
    Powers.Pow2Bytes();
    LittleEndianBack(Checksum(payload), 8);
  }

  /** A snapshot that could be saved is read back exactly when its tables are within the reader's limits, and
      then everything is as it was, except conditions on addresses that have no breakpoint, which are lost. */
  lemma SnapshotBack(s: Saved, orders: Orders)
    requires Visits(orders, s.tables) && RegistersFit(s.registers) && TablesFit(s.tables)
    requires SnapshotBytes(s, orders).Some?
    ensures DecodeSnapshot(SnapshotBytes(s, orders).value) ==
            if Within(s.tables) then Some(s.(tables := s.tables.(conditions := Attached(s.tables)))) else None
  {
    hide Unsealed, DecodeBody, EncodeBody, Visits, TablesFit, RegistersFit, Within, Attached, Checksum, LittleEndian;
    var body := EncodeBody(s, orders);
    assert (MAGIC + body)[..8] == MAGIC && (MAGIC + body)[8..] == body;
    SealBack(MAGIC + body);
    BodyBack(s, orders);
  }

  /** Reading back restores the monitor exactly when the tables are within limits and every condition belongs to
      a breakpoint. */
  lemma SnapshotRestoresIff(s: Saved, orders: Orders)
    requires Visits(orders, s.tables) && RegistersFit(s.registers) && TablesFit(s.tables)
    requires SnapshotBytes(s, orders).Some?
    ensures DecodeSnapshot(SnapshotBytes(s, orders).value) == Some(s)
       <==> Within(s.tables) && s.tables.conditions.Keys <= s.tables.breakpoints.Keys
  {
    hide DecodeSnapshot, SnapshotBytes, Visits, TablesFit, RegistersFit, Within;
    SnapshotBack(s, orders);
    var t := s.tables;
    if t.conditions.Keys <= t.breakpoints.Keys { assert Attached(t) == t.conditions; }
    if Attached(t) == t.conditions {
      forall k | k in t.conditions ensures k in t.breakpoints { assert k in Attached(t); }
    }
  }

  // ---- what the checksum detects ----

  const PRIME := 0x100_0000_01b3
  const INVERSE := 0xce96_5057_aff6_957b   // of PRIME modulo 2^64
  const MODULUS := 0x1_0000_0000_0000_0000

  /** Exclusive-or with the same byte, or of the same number, tells different operands apart. */
  lemma {:induction false} XorCancels(a: nat, b: nat, c: nat)
    requires BitXor(a, c) == BitXor(b, c)
    ensures a == b
    decreases a + b
  {
    if a != 0 || b != 0 {
      XorParts(a, c);
      XorParts(b, c);
      XorCancels(a / 2, b / 2, c / 2);
    }
  }

  lemma XorParts(a: nat, c: nat)
    ensures BitXor(a, c) / 2 == BitXor(a / 2, c / 2)
    ensures BitXor(a, c) % 2 == if a % 2 != c % 2 then 1 else 0
  {
    if a != 0 && c != 0 {
      Halves(BitXor(a, c), BitXor(a / 2, c / 2), if a % 2 != c % 2 then 1 else 0);
    }
  }

  lemma Halves(n: nat, half: nat, bit: nat)
    requires n == 2 * half + bit && bit < 2
    ensures n / 2 == half && n % 2 == bit
  {
  }

  lemma {:induction false} XorCommutes(a: nat, b: nat)
    ensures BitXor(a, b) == BitXor(b, a)
    decreases a + b
  {
    if a != 0 && b != 0 { XorCommutes(a / 2, b / 2); }
  }

  /** Multiplying by an odd constant modulo 2^64 tells numbers apart. */
  lemma ProductCancels(u: nat, v: nat)
    requires u < MODULUS && v < MODULUS && u * PRIME % MODULUS == v * PRIME % MODULUS
    ensures u == v
  {
    var d, e := u - v, u * PRIME / MODULUS - v * PRIME / MODULUS;
    assert d * PRIME == e * MODULUS;
    assert PRIME * INVERSE == 1 + 887_285_111_055 * MODULUS;
    assert d == MODULUS * (e * INVERSE - d * 887_285_111_055);
  }

  lemma MixCancels(a: nat, x: Byte, b: nat, y: Byte)
    requires a < MODULUS && b < MODULUS && Mix(a, x) == Mix(b, y)
    ensures BitXor(a, x) == BitXor(b, y)
  {
    hide BitXor, Powers.Pow2;
    Powers.Pow2Bytes();
    XorBound(a, x, 64);
    XorBound(b, y, 64);
    ProductCancels(BitXor(a, x), BitXor(b, y));
  }

  /** Two contents that differ in exactly one byte have different checksums. */
  lemma {:induction false} ChecksumTellsApart(p: seq<Byte>, q: seq<Byte>, i: nat)
    requires |p| == |q| && i < |p| && p[i] != q[i]
    requires forall k :: 0 <= k < |p| && k != i ==> p[k] == q[k]
    ensures Checksum(p) != Checksum(q)
    decreases |p|
  {
    hide Mix;
    var last := |p| - 1;
    if Checksum(p) == Checksum(q) {
      MixCancels(Checksum(p[..last]), p[last], Checksum(q[..last]), q[last]);
      if i == last {
        assert p[..last] == q[..last];
        XorCommutes(Checksum(p[..last]), p[last]);
        XorCommutes(Checksum(q[..last]), q[last]);
        XorCancels(p[last], q[last], Checksum(p[..last]));
      } else {
        XorCancels(Checksum(p[..last]), Checksum(q[..last]), p[last]);
        ChecksumTellsApart(p[..last], q[..last], i);
      }
    }
  }

  /** A file that differs from a saved one in any one byte - magic, contents or checksum - is refused. */
  lemma OneByteChangeIsRefused(payload: seq<Byte>, i: nat, byte: Byte)
    requires |payload| >= 8 && payload[..8] == MAGIC
    requires i < |Sealed(payload)| && Sealed(payload)[i] != byte
    ensures Unsealed(Sealed(payload)[i := byte]) == None
  {
    hide Checksum, LittleEndian, LittleEndianValue, Powers.Pow2;
    var sealed := Sealed(payload);
    var changed := sealed[i := byte];
    var n := |payload|;
    Powers.Pow2Bytes();
    LittleEndianBack(Checksum(payload), 8);
    if i < 8 {
      assert changed[..8][i] != MAGIC[i];
    } else if i < n {
      assert changed[..n] == payload[i := byte];
      ChecksumTellsApart(payload, payload[i := byte], i);
      assert changed[n..] == LittleEndian(Checksum(payload), 8);
    } else {
      assert changed[..n] == payload;
      assert changed[n..] == LittleEndian(Checksum(payload), 8)[i - n := byte];
      BytesBack(changed[n..]);
    }
  }

  lemma ChangedSnapshotIsRefused(s: Saved, orders: Orders, i: nat, byte: Byte)
    requires Visits(orders, s.tables) && SnapshotBytes(s, orders).Some?
    requires i < |SnapshotBytes(s, orders).value| && SnapshotBytes(s, orders).value[i] != byte
    ensures DecodeSnapshot(SnapshotBytes(s, orders).value[i := byte]) == None
  {
    hide EncodeBody, Unsealed, Sealed, Visits;
    assert (MAGIC + EncodeBody(s, orders))[..8] == MAGIC;
    OneByteChangeIsRefused(MAGIC + EncodeBody(s, orders), i, byte);
  }
}
