/** The snapshot file of the monitor: what is saved, how it is laid out in bytes, and
    how the bytes are read back. */
module Persistence {
  import opened Bytes
  import opened Options
  import opened BitOps
  import Expressions
  import Utf8

  datatype AccessKind = ReadAccess | WriteAccess

  datatype Watchpoint = Watchpoint(id: Word64, address: Word64, width: Word64, kind: Option<AccessKind>)

  datatype CallFrame = CallFrame(returnPc: Word64, target: Word64)

  datatype Registers = Registers(x: seq<Word64>, f: seq<Word64>, fcsr: Word32, pc: Word64, instructions: Word64,
                                 viewAddress: Word64, nextBreakpointId: Word64, nextWatchpointId: Word64)

  datatype Tables = Tables(symbols: map<Word64, string>, marks: map<string, Word64>,
                           breakpoints: map<Word64, Word64>, conditions: map<Word64, Expressions.Tree>,
                           watchpoints: map<Word64, Watchpoint>, callStack: seq<CallFrame>)

  datatype Saved = Saved(registers: Registers, tables: Tables, memory: seq<Byte>)

  /** The orders in which the tables' keys are visited. */
  datatype Orders = Orders(symbols: seq<Word64>, marks: seq<string>, breakpoints: seq<Word64>, watchpoints: seq<Word64>)

  const MAX_BYTES := 0x400_0000
  const MAX_COUNT := 1_000_000
  const MAX_TREE_DEPTH := 128
  const VERSION := 4
  const MAGIC: seq<Byte> := [0x52, 0x56, 0x53, 0x4e, 0x41, 0x50, 0x30, 0x31]   // RVSNAP01

  // ---- writing ----

  function EncodeText(text: string): seq<Byte>
  {
    var bytes := Utf8.Encode(text);
    LittleEndian(|bytes|, 4) + bytes
  }

  function UnaryCode(operator: Expressions.UnaryOperator): Byte
  {
    match operator case UPlus => 0 case UMinus => 1 case UNot => 2
  }

  function BinaryCode(operator: Expressions.BinaryOperator): Byte
  {
    match operator
    case Add => 0 case Subtract => 1 case Multiply => 2 case Divide => 3 case Remainder => 4
    case ShlOp => 5 case ShrOp => 6 case AndOp => 7 case XorOp => 8 case OrOp => 9
  }

  function EncodeTree(tree: Expressions.Tree): seq<Byte>
  {
    match tree
    case Number(value) => [0] + LittleEndian(Expressions.Bits(value), 16)
    case Name(name) => [1] + EncodeText(name)
    case Unary(operator, operand) => [2, UnaryCode(operator)] + EncodeTree(operand)
    case Binary(operator, left, right) => [3, BinaryCode(operator)] + (EncodeTree(left) + EncodeTree(right))
  }

  function EncodeWords(words: seq<Word64>): seq<Byte>
  {
    if words == [] then [] else LittleEndian(words[0], 8) + EncodeWords(words[1..])
  }

  function EncodeSymbols(order: seq<Word64>, symbols: map<Word64, string>): seq<Byte>
    requires forall k :: k in order ==> k in symbols
  {
    if order == [] then []
    else LittleEndian(order[0], 8) + EncodeText(symbols[order[0]]) + EncodeSymbols(order[1..], symbols)
  }

  function EncodeMarks(order: seq<string>, marks: map<string, Word64>): seq<Byte>
    requires forall k :: k in order ==> k in marks
  {
    if order == [] then []
    else EncodeText(order[0]) + LittleEndian(marks[order[0]], 8) + EncodeMarks(order[1..], marks)
  }

  function EncodeCondition(condition: Option<Expressions.Tree>): seq<Byte>
  {
    match condition case None => [0] case Some(tree) => [1] + EncodeTree(tree)
  }

  function ConditionAt(conditions: map<Word64, Expressions.Tree>, address: Word64): Option<Expressions.Tree>
  {
    if address in conditions then Some(conditions[address]) else None
  }

  function EncodeBreakpoints(order: seq<Word64>, breakpoints: map<Word64, Word64>,
                             conditions: map<Word64, Expressions.Tree>): seq<Byte>
    requires forall k :: k in order ==> k in breakpoints
  {
    if order == [] then []
    else EncodeWords([order[0], breakpoints[order[0]]]) + EncodeCondition(ConditionAt(conditions, order[0]))
         + EncodeBreakpoints(order[1..], breakpoints, conditions)
  }

  function KindCode(kind: Option<AccessKind>): Byte
  {
    match kind case None => 0 case Some(ReadAccess) => 1 case Some(WriteAccess) => 2
  }

  function EncodeWatchpoints(order: seq<Word64>, watchpoints: map<Word64, Watchpoint>): seq<Byte>
    requires forall k :: k in order ==> k in watchpoints
  {
    if order == [] then []
    else
      var w := watchpoints[order[0]];
      EncodeWords([w.id, w.address, w.width]) + [KindCode(w.kind)] + EncodeWatchpoints(order[1..], watchpoints)
  }

  function EncodeFrames(frames: seq<CallFrame>): seq<Byte>
  {
    if frames == [] then [] else EncodeWords([frames[0].returnPc, frames[0].target]) + EncodeFrames(frames[1..])
  }

  function EncodeRegisters(r: Registers): seq<Byte>
  {
    EncodeWords(r.x) + (EncodeWords(r.f) + (LittleEndian(r.fcsr, 4)
    + EncodeWords([r.pc, r.instructions, r.viewAddress, r.nextBreakpointId, r.nextWatchpointId])))
  }

  /** The order visits every key once. */
  predicate Lists<K(==)>(order: seq<K>, keys: set<K>)
  {
    && (forall k :: k in order ==> k in keys)
    && (forall k :: k in keys ==> k in order)
    && (forall i, j :: 0 <= i < j < |order| ==> order[i] != order[j])
  }

  predicate Visits(orders: Orders, t: Tables)
  {
    && Lists(orders.symbols, t.symbols.Keys)
    && Lists(orders.marks, t.marks.Keys)
    && Lists(orders.breakpoints, t.breakpoints.Keys)
    && Lists(orders.watchpoints, t.watchpoints.Keys)
  }

  /** A table's length and entries. */
  function Counted(count: nat, entries: seq<Byte>): seq<Byte>
  {
    LittleEndian(count, 4) + entries
  }

  function EncodeTables(t: Tables, orders: Orders): seq<Byte>
    requires Visits(orders, t)
  {
    Counted(|orders.symbols|, EncodeSymbols(orders.symbols, t.symbols))
    + (Counted(|orders.marks|, EncodeMarks(orders.marks, t.marks))
       + (Counted(|orders.breakpoints|, EncodeBreakpoints(orders.breakpoints, t.breakpoints, t.conditions))
          + (Counted(|orders.watchpoints|, EncodeWatchpoints(orders.watchpoints, t.watchpoints))
             + Counted(|t.callStack|, EncodeFrames(t.callStack)))))
  }

  function EncodeBody(s: Saved, orders: Orders): seq<Byte>
    requires Visits(orders, s.tables)
  {
    LittleEndian(VERSION, 4) + (LittleEndian(|s.memory|, 8)
    + (EncodeRegisters(s.registers) + (EncodeTables(s.tables, orders) + s.memory)))
  }

  /** The checksum after one more byte: FNV-1a on 64 bits. */
  function Mix(checksum: nat, byte: Byte): nat
  {
    BitXor(checksum, byte) * 0x100_0000_01b3 % 0x1_0000_0000_0000_0000
  }

  function Checksum(bytes: seq<Byte>): (c: nat)
    ensures c < 0x1_0000_0000_0000_0000
  {
    if bytes == [] then 0xcbf2_9ce4_8422_2325 else Mix(Checksum(bytes[..|bytes| - 1]), bytes[|bytes| - 1])
  }

  function Sealed(payload: seq<Byte>): seq<Byte>
  {
    payload + LittleEndian(Checksum(payload), 8)
  }

  /** The snapshot file of a monitor; None when it is too large. */
  function SnapshotBytes(s: Saved, orders: Orders): Option<seq<Byte>>
    requires Visits(orders, s.tables)
  {
    var bytes := Sealed(MAGIC + EncodeBody(s, orders));
    if |bytes| > MAX_BYTES then None else Some(bytes)
  }

  // ---- reading ----

  /** What was read and the bytes after it. */
  datatype Reading<+T> = Fail | Done(value: T, rest: seq<Byte>)

  function Take(bytes: seq<Byte>, count: nat): (r: Reading<seq<Byte>>)
    ensures r.Done? ==> |r.value| == count && |r.rest| == |bytes| - count
  {
    if count > |bytes| then Fail else Done(bytes[..count], bytes[count..])
  }

  function DecodeNumber(bytes: seq<Byte>, width: nat): (r: Reading<nat>)
    ensures r.Done? ==> |r.rest| == |bytes| - width
  {
    match Take(bytes, width) case Fail => Fail case Done(raw, rest) => Done(LittleEndianValue(raw), rest)
  }

  function DecodeWord(bytes: seq<Byte>): (r: Reading<Word64>)
    ensures r.Done? ==> |r.rest| == |bytes| - 8
  {
    match DecodeNumber(bytes, 8)
    case Fail => Fail
    case Done(value, rest) => if value < 0x1_0000_0000_0000_0000 then Done(value, rest) else Fail
  }

  function DecodeText(bytes: seq<Byte>): (r: Reading<string>)
    ensures r.Done? ==> |r.rest| < |bytes|
  {
    match DecodeNumber(bytes, 4)
    case Fail => Fail
    case Done(length, rest) =>
      if length > MAX_BYTES then Fail
      else match Take(rest, length)
        case Fail => Fail
        case Done(raw, after) =>
          match Utf8.Decode(raw) case None => Fail case Some(text) => Done(text, after)
  }

  function UnaryFor(code: Byte): Option<Expressions.UnaryOperator>
  {
    if code == 0 then Some(Expressions.UPlus) else if code == 1 then Some(Expressions.UMinus)
    else if code == 2 then Some(Expressions.UNot) else None
  }

  function BinaryFor(code: Byte): Option<Expressions.BinaryOperator>
  {
    if code == 0 then Some(Expressions.Add) else if code == 1 then Some(Expressions.Subtract)
    else if code == 2 then Some(Expressions.Multiply) else if code == 3 then Some(Expressions.Divide)
    else if code == 4 then Some(Expressions.Remainder) else if code == 5 then Some(Expressions.ShlOp)
    else if code == 6 then Some(Expressions.ShrOp) else if code == 7 then Some(Expressions.AndOp)
    else if code == 8 then Some(Expressions.XorOp) else if code == 9 then Some(Expressions.OrOp) else None
  }

  function DecodeTree(bytes: seq<Byte>, depth: nat): (r: Reading<Expressions.Tree>)
    ensures r.Done? ==> |r.rest| < |bytes|
    decreases |bytes|
  {
    if depth > MAX_TREE_DEPTH || bytes == [] then Fail
    else
      var kind, after := bytes[0], bytes[1..];
      if kind == 0 then
        match DecodeNumber(after, 16)
        case Fail => Fail
        case Done(value, rest) => Done(Expressions.Number(Expressions.FromBits(value)), rest)
      else if kind == 1 then
        match DecodeText(after) case Fail => Fail case Done(name, rest) => Done(Expressions.Name(name), rest)
      else if kind == 2 then
        if after == [] || UnaryFor(after[0]).None? then Fail
        else match DecodeTree(after[1..], depth + 1)
          case Fail => Fail
          case Done(operand, rest) => Done(Expressions.Unary(UnaryFor(after[0]).value, operand), rest)
      else if kind == 3 then
        if after == [] || BinaryFor(after[0]).None? then Fail
        else match DecodeTree(after[1..], depth + 1)
          case Fail => Fail
          case Done(left, middle) =>
            match DecodeTree(middle, depth + 1)
            case Fail => Fail
            case Done(right, rest) => Done(Expressions.Binary(BinaryFor(after[0]).value, left, right), rest)
      else Fail
  }

  function DecodeWords(bytes: seq<Byte>, count: nat): (r: Reading<seq<Word64>>)
    ensures r.Done? ==> |r.value| == count && |r.rest| <= |bytes|
    decreases count
  {
    if count == 0 then Done([], bytes)
    else match DecodeWord(bytes)
      case Fail => Fail
      case Done(word, rest) =>
        match DecodeWords(rest, count - 1) case Fail => Fail case Done(words, after) => Done([word] + words, after)
  }

  /** A table's length, checked. */
  function DecodeCount(bytes: seq<Byte>): Reading<nat>
  {
    match DecodeNumber(bytes, 4) case Fail => Fail case Done(count, rest) => if count > MAX_COUNT then Fail else Done(count, rest)
  }

  function DecodeSymbols(bytes: seq<Byte>, count: nat, table: map<Word64, string>): Reading<map<Word64, string>>
    decreases count
  {
    if count == 0 then Done(table, bytes)
    else match DecodeWord(bytes)
      case Fail => Fail
      case Done(address, rest) =>
        match DecodeText(rest)
        case Fail => Fail
        case Done(name, after) =>
          if address in table then Fail else DecodeSymbols(after, count - 1, table[address := name])
  }

  function DecodeMarks(bytes: seq<Byte>, count: nat, table: map<string, Word64>): Reading<map<string, Word64>>
    decreases count
  {
    if count == 0 then Done(table, bytes)
    else match DecodeText(bytes)
      case Fail => Fail
      case Done(name, rest) =>
        match DecodeWord(rest)
        case Fail => Fail
        case Done(address, after) =>
          if name in table then Fail else DecodeMarks(after, count - 1, table[name := address])
  }

  function DecodeCondition(bytes: seq<Byte>): Reading<Option<Expressions.Tree>>
  {
    if bytes == [] then Fail
    else if bytes[0] == 0 then Done(None, bytes[1..])
    else match DecodeTree(bytes[1..], 0) case Fail => Fail case Done(tree, rest) => Done(Some(tree), rest)
  }

  type BreakpointTables = (map<Word64, Word64>, map<Word64, Expressions.Tree>)

  function AddBreakpoint(t: BreakpointTables, address: Word64, id: Word64, condition: Option<Expressions.Tree>): BreakpointTables
  {
    (t.0[address := id], match condition case None => t.1 case Some(tree) => t.1[address := tree])
  }

  function DecodeBreakpoints(bytes: seq<Byte>, count: nat, t: BreakpointTables): Reading<BreakpointTables>
    decreases count
  {
    if count == 0 then Done(t, bytes)
    else match DecodeWords(bytes, 2)
      case Fail => Fail
      case Done(entry, rest) =>
        if entry[0] in t.0 then Fail
        else match DecodeCondition(rest)
          case Fail => Fail
          case Done(condition, after) => DecodeBreakpoints(after, count - 1, AddBreakpoint(t, entry[0], entry[1], condition))
  }

  function KindFor(code: Byte): Option<Option<AccessKind>>
  {
    if code == 0 then Some(None) else if code == 1 then Some(Some(ReadAccess))
    else if code == 2 then Some(Some(WriteAccess)) else None
  }

  function DecodeWatchpoints(bytes: seq<Byte>, count: nat, table: map<Word64, Watchpoint>): Reading<map<Word64, Watchpoint>>
    decreases count
  {
    if count == 0 then Done(table, bytes)
    else match DecodeWords(bytes, 3)
      case Fail => Fail
      case Done(entry, rest) =>
        if rest == [] || KindFor(rest[0]).None? || entry[0] in table then Fail
        else DecodeWatchpoints(rest[1..], count - 1,
                               table[entry[0] := Watchpoint(entry[0], entry[1], entry[2], KindFor(rest[0]).value)])
  }

  function DecodeFrames(bytes: seq<Byte>, count: nat): Reading<seq<CallFrame>>
    decreases count
  {
    if count == 0 then Done([], bytes)
    else match DecodeWords(bytes, 2)
      case Fail => Fail
      case Done(entry, rest) =>
        match DecodeFrames(rest, count - 1)
        case Fail => Fail
        case Done(frames, after) => Done([CallFrame(entry[0], entry[1])] + frames, after)
  }

  function DecodeRegisters(bytes: seq<Byte>): Reading<Registers>
  {
    match DecodeWords(bytes, 32)
    case Fail => Fail
    case Done(x, r1) =>
      match DecodeWords(r1, 32)
      case Fail => Fail
      case Done(f, r2) =>
        match DecodeNumber(r2, 4)
        case Fail => Fail
        case Done(fcsr, r3) =>
          match DecodeWords(r3, 5)
          case Fail => Fail
          case Done(w, rest) =>
            if fcsr < 0x1_0000_0000 then Done(Registers(x, f, fcsr, w[0], w[1], w[2], w[3], w[4]), rest) else Fail
  }

  function DecodeSymbolTable(bytes: seq<Byte>): Reading<map<Word64, string>>
  {
    match DecodeCount(bytes) case Fail => Fail case Done(count, rest) => DecodeSymbols(rest, count, map[])
  }

  function DecodeMarkTable(bytes: seq<Byte>): Reading<map<string, Word64>>
  {
    match DecodeCount(bytes) case Fail => Fail case Done(count, rest) => DecodeMarks(rest, count, map[])
  }

  function DecodeBreakpointTable(bytes: seq<Byte>): Reading<BreakpointTables>
  {
    match DecodeCount(bytes) case Fail => Fail case Done(count, rest) => DecodeBreakpoints(rest, count, (map[], map[]))
  }

  function DecodeWatchpointTable(bytes: seq<Byte>): Reading<map<Word64, Watchpoint>>
  {
    match DecodeCount(bytes) case Fail => Fail case Done(count, rest) => DecodeWatchpoints(rest, count, map[])
  }

  function DecodeCallStack(bytes: seq<Byte>): Reading<seq<CallFrame>>
  {
    match DecodeCount(bytes) case Fail => Fail case Done(count, rest) => DecodeFrames(rest, count)
  }

  function DecodeTables(bytes: seq<Byte>): Reading<Tables>
  {
    match DecodeSymbolTable(bytes)
    case Fail => Fail
    case Done(symbols, r1) =>
      match DecodeMarkTable(r1)
      case Fail => Fail
      case Done(marks, r2) =>
        match DecodeBreakpointTable(r2)
        case Fail => Fail
        case Done(b, r3) =>
          match DecodeWatchpointTable(r3)
          case Fail => Fail
          case Done(watchpoints, r4) =>
            match DecodeCallStack(r4)
            case Fail => Fail
            case Done(callStack, rest) => Done(Tables(symbols, marks, b.0, b.1, watchpoints, callStack), rest)
  }

  function DecodeBody(bytes: seq<Byte>): Option<Saved>
  {
    match DecodeNumber(bytes, 4)
    case Fail => None
    case Done(version, r1) =>
      if version != VERSION then None
      else match DecodeNumber(r1, 8)
        case Fail => None
        case Done(length, r2) =>
          match DecodeRegisters(r2)
          case Fail => None
          case Done(registers, r3) =>
            match DecodeTables(r3)
            case Fail => None
            case Done(tables, r4) =>
              if length > MAX_BYTES then None
              else match Take(r4, length)
                case Fail => None
                case Done(memory, rest) => if rest == [] then Some(Saved(registers, tables, memory)) else None
  }

  /** The bytes between magic and checksum, when both are right. */
  function Unsealed(bytes: seq<Byte>): Option<seq<Byte>>
  {
    if |bytes| < 16 || bytes[..8] != MAGIC then None
    else
      var payload := bytes[..|bytes| - 8];
      if Checksum(payload) != LittleEndianValue(bytes[|bytes| - 8..]) then None else Some(payload[8..])
  }

  function DecodeSnapshot(bytes: seq<Byte>): Option<Saved>
  {
    if |bytes| > MAX_BYTES then None
    else match Unsealed(bytes) case None => None case Some(body) => DecodeBody(body)
  }
}
