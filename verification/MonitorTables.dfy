/** The commands that change what a monitor saves, and what every run of them keeps. */
module MonitorTables {
  import opened Bytes
  import opened Options
  import opened Persistence
  import opened PersistenceProof
  import opened PersistenceSnapshots
  import PersistenceFiles
  import Expressions
  import Powers

  /** A command with its operands resolved; conditions are tokens still to be parsed. */
  datatype Command =
    | Break(address: Word64, condition: Option<seq<Expressions.Token>>)
    | Watch(watched: Word64, width: Word64, kind: Option<AccessKind>)
    | DeleteBreak(breakId: Word64)
    | DeleteWatch(watchId: Word64)
    | Names(symbols: map<Word64, string>, marks: map<string, Word64>)
    | Execute(registers: Registers, memory: seq<Byte>, callStack: seq<CallFrame>)
    | Reset(cleared: Registers, empty: seq<Byte>, labels: map<Word64, string>)
    | Restore(file: seq<Byte>)

  const LAST_ID: Word64 := 0xffff_ffff_ffff_ffff

  predicate IsWidth(width: Word64) { width == 1 || width == 2 || width == 4 || width == 8 }

  // ---- the commands ----

  /** The parsed condition: None when it does not parse, Some(None) when there is none. */
  function ParseCondition(condition: Option<seq<Expressions.Token>>): Option<Option<Expressions.Tree>>
  {
    match condition
    case None => Some(None)
    case Some(tokens) => match Expressions.ParseText(tokens) case None => None case Some(tree) => Some(Some(tree))
  }

  function BreakAt(s: Saved, address: Word64, condition: Option<seq<Expressions.Token>>): Saved
  {
    if address % 4 != 0 || address in s.tables.breakpoints then s
    else match ParseCondition(condition)
      case None => s
      case Some(parsed) =>
        var id := s.registers.nextBreakpointId;
        if id == LAST_ID then s
        else
          var (breakpoints, conditions) := AddBreakpoint((s.tables.breakpoints, s.tables.conditions), address, id, parsed);
          s.(registers := s.registers.(nextBreakpointId := id + 1),
             tables := s.tables.(breakpoints := breakpoints, conditions := conditions))
  }

  function WatchAt(s: Saved, address: Word64, width: Word64, kind: Option<AccessKind>): Saved
  {
    var id := s.registers.nextWatchpointId;
    if !IsWidth(width) || id == LAST_ID then s
    else s.(registers := s.registers.(nextWatchpointId := id + 1),
            tables := s.tables.(watchpoints := s.tables.watchpoints[id := Watchpoint(id, address, width, kind)]))
  }

  predicate IsLeast(k: Word64, keys: set<Word64>)
  {
    k in keys && forall j :: j in keys ==> k <= j
  }

  lemma {:induction false} LeastExists(keys: set<Word64>) returns (least: Word64)
    requires keys != {}
    ensures IsLeast(least, keys)
    decreases |keys|
  {
    var any :| any in keys;
    var rest := keys - {any};
    least := any;
    if rest != {} {
      var other := LeastExists(rest);
      if other < any { least := other; }
    }
    forall j | j in keys ensures least <= j {
      if j != any { assert j in rest; }
    }
  }

  lemma SomeLeast(keys: set<Word64>)
    requires keys != {}
    ensures exists k :: IsLeast(k, keys)
  {
    var k := LeastExists(keys);
  }

  function Least(keys: set<Word64>): (k: Word64)
    requires keys != {}
    ensures IsLeast(k, keys)
  {
    SomeLeast(keys);
    var k :| k in keys && IsLeast(k, keys);
    k
  }

  function Holders(breakpoints: map<Word64, Word64>, id: Word64): set<Word64>
  {
    set k | k in breakpoints && breakpoints[k] == id
  }

  /** The breakpoint with a number: the lowest address, were there several. */
  function AddressOf(breakpoints: map<Word64, Word64>, id: Word64): Option<Word64>
  {
    var found := Holders(breakpoints, id);
    if found == {} then None else Some(Least(found))
  }

  function DeleteBreakpoint(s: Saved, id: Word64): Saved
  {
    match AddressOf(s.tables.breakpoints, id)
    case None => s
    case Some(address) =>
      s.(tables := s.tables.(breakpoints := s.tables.breakpoints - {address}, conditions := s.tables.conditions - {address}))
  }

  function Step(s: Saved, c: Command): Saved
  {
    match c
    case Break(address, condition) => BreakAt(s, address, condition)
    case Watch(address, width, kind) => WatchAt(s, address, width, kind)
    case DeleteBreak(id) => DeleteBreakpoint(s, id)
    case DeleteWatch(id) => s.(tables := s.tables.(watchpoints := s.tables.watchpoints - {id}))
    case Names(symbols, marks) => s.(tables := s.tables.(symbols := symbols, marks := marks))
    case Execute(registers, memory, callStack) =>
      s.(registers := registers.(nextBreakpointId := s.registers.nextBreakpointId, nextWatchpointId := s.registers.nextWatchpointId),
         memory := memory, tables := s.tables.(callStack := callStack))
    case Reset(registers, memory, labels) =>
      Saved(registers.(nextBreakpointId := s.registers.nextBreakpointId, nextWatchpointId := s.registers.nextWatchpointId),
            Tables(labels, map[], map[], map[], map[], []), memory)
    case Restore(file) => (match DecodeSnapshot(file) case None => s case Some(t) => t)
  }

  predicate BreakAccepted(s: Saved, address: Word64, condition: Option<seq<Expressions.Token>>)
  {
    address % 4 == 0 && address !in s.tables.breakpoints && ParseCondition(condition).Some?
    && s.registers.nextBreakpointId != LAST_ID
  }

  /** Break takes effect exactly at a new aligned address, with a condition that parses and a number left; the stored
      condition then has, under any symbols, the value its text has. */
  lemma BreakTakesEffect(s: Saved, address: Word64, condition: Option<seq<Expressions.Token>>, symbols: Expressions.Symbols)
    ensures BreakAccepted(s, address, condition) <==> BreakAt(s, address, condition).tables.breakpoints != s.tables.breakpoints
    ensures BreakAccepted(s, address, condition) ==>
              BreakAt(s, address, condition).tables.breakpoints == s.tables.breakpoints[address := s.registers.nextBreakpointId]
    ensures BreakAccepted(s, address, condition) && condition.Some? ==>
              var conditions := BreakAt(s, address, condition).tables.conditions;
              address in conditions
              && Expressions.EvaluateTree(conditions[address], symbols) == Expressions.EvaluateText(condition.value, symbols)
    ensures BreakAccepted(s, address, condition) ==>
              var r := BreakAt(s, address, condition);
              && r.tables.conditions.Keys == s.tables.conditions.Keys + (if condition.Some? then {address} else {})
              && (forall k :: k in s.tables.conditions && (k != address || condition.None?) ==>
                    r.tables.conditions[k] == s.tables.conditions[k])
              && r.registers == s.registers.(nextBreakpointId := s.registers.nextBreakpointId + 1)
              && r == s.(registers := r.registers,
                         tables := s.tables.(breakpoints := r.tables.breakpoints, conditions := r.tables.conditions))
    ensures !BreakAccepted(s, address, condition) ==> BreakAt(s, address, condition) == s
  {
    hide Expressions.EvaluateTree, Expressions.EvaluateText, Expressions.ParseText;
    if condition.Some? { Expressions.EnginesAgree(condition.value, symbols); }
  }

  /** Watch sets exactly one new watchpoint, on the bytes and accesses asked for, when the width is 1, 2, 4 or 8 and a
      number is left; deleting it by that number takes exactly it away again. */
  lemma WatchTakesEffect(s: Saved, address: Word64, width: Word64, kind: Option<AccessKind>)
    requires s.registers.nextWatchpointId !in s.tables.watchpoints
    ensures var r, id := Step(s, Watch(address, width, kind)), s.registers.nextWatchpointId;
            if width in {1, 2, 4, 8} && id != 0xffff_ffff_ffff_ffff then
              && r.tables.watchpoints.Keys == s.tables.watchpoints.Keys + {id}
              && r.tables.watchpoints[id].address == address && r.tables.watchpoints[id].width == width
              && r.tables.watchpoints[id].kind == kind && r.tables.watchpoints[id].id == id
              && (forall k :: k in s.tables.watchpoints ==> r.tables.watchpoints[k] == s.tables.watchpoints[k])
              && r.registers == s.registers.(nextWatchpointId := id + 1)
              && Step(r, DeleteWatch(id)).tables == s.tables
            else r == s
  {
    var r, id := Step(s, Watch(address, width, kind)), s.registers.nextWatchpointId;
    if r != s { assert r.tables.watchpoints - {id} == s.tables.watchpoints; }
  }

  /** Deleting by number takes away a breakpoint of that number, the one at the lowest address, with its condition; a
      number that no breakpoint has changes nothing. */
  lemma DeleteTakesEffect(s: Saved, id: Word64)
    ensures var r := Step(s, DeleteBreak(id));
            if exists k :: k in s.tables.breakpoints && s.tables.breakpoints[k] == id then
              exists k :: k in s.tables.breakpoints && s.tables.breakpoints[k] == id
                && (forall j :: j in s.tables.breakpoints && s.tables.breakpoints[j] == id ==> k <= j)
                && r.tables.breakpoints == s.tables.breakpoints - {k} && r.tables.conditions == s.tables.conditions - {k}
                && r == s.(tables := s.tables.(breakpoints := r.tables.breakpoints, conditions := r.tables.conditions))
            else r == s
  {
    var found := Holders(s.tables.breakpoints, id);
    if found != {} {
      var k := Least(found);
      assert k in s.tables.breakpoints && s.tables.breakpoints[k] == id;
      forall j | j in s.tables.breakpoints && s.tables.breakpoints[j] == id ensures k <= j { assert j in found; }
    } else {
      forall k | k in s.tables.breakpoints ensures s.tables.breakpoints[k] != id { assert k !in found; }
    }
  }

  /** Running the program leaves the debugging tables and numbers alone; starting over empties the tables and keeps the
      numbers, so that none is given twice. */
  lemma NumbersGoOn(s: Saved, c: Command)
    requires !c.Restore?
    ensures var r := Step(s, c);
            && s.registers.nextBreakpointId <= r.registers.nextBreakpointId <= s.registers.nextBreakpointId + 1
            && s.registers.nextWatchpointId <= r.registers.nextWatchpointId <= s.registers.nextWatchpointId + 1
            && (c.Execute? ==> r.memory == c.memory && r.tables == s.tables.(callStack := c.callStack)
                               && r.registers.x == c.registers.x && r.registers.pc == c.registers.pc)
            && (c.Reset? ==> r.tables == Tables(c.labels, map[], map[], map[], map[], []) && r.memory == c.empty)
            && (c.Names? ==> r == s.(tables := s.tables.(symbols := c.symbols, marks := c.marks)))
  {
    hide ParseCondition, AddressOf;
  }

  // ---- what every run keeps ----

  predicate TokensFit(tokens: seq<Expressions.Token>)
  {
    forall k :: 0 <= k < |tokens| && tokens[k].Literal? ==> Expressions.IsI128(tokens[k].value)
  }

  /** Literals fit their 128 bits, and there are 32 registers of each kind. */
  predicate Sane(c: Command)
  {
    match c
    case Break(_, Some(tokens)) => TokensFit(tokens)
    case Execute(registers, _, _) => RegistersFit(registers)
    case Reset(registers, _, _) => RegistersFit(registers)
    case _ => true
  }

  /** Conditions belong to breakpoints, watchpoints to their numbers, literals fit. */
  ghost predicate Kept(s: Saved)
  {
    RegistersFit(s.registers) && TablesFit(s.tables) && s.tables.conditions.Keys <= s.tables.breakpoints.Keys
  }

  lemma AfterFirstFits(tokens: seq<Expressions.Token>)
    requires tokens != [] && TokensFit(tokens)
    ensures TokensFit(tokens[1..])
  {
    hide Expressions.IsI128;
    forall k | 0 <= k < |tokens[1..]| && tokens[1..][k].Literal? ensures Expressions.IsI128(tokens[1..][k].value) {
      assert tokens[1..][k] == tokens[k + 1];
    }
  }

  ghost predicate ReadingFits(r: Expressions.Parsed<Expressions.Tree>)
  {
    r.Done? ==> LiteralsFit(r.value) && TokensFit(r.rest)
  }

  lemma {:induction false} ExpressionFits(tokens: seq<Expressions.Token>, minimum: nat)
    requires TokensFit(tokens)
    ensures ReadingFits(Expressions.TreeExpression(tokens, minimum))
    decreases |tokens|, 2
  {
    hide TokensFit, Expressions.Suffix, Expressions.IsI128;
    UnaryFits(tokens);
    match Expressions.TreeUnary(tokens) {
      case Fail =>
      case Done(left, rest) => LoopFits(left, rest, minimum);
    }
  }

  lemma {:induction false} LoopFits(left: Expressions.Tree, tokens: seq<Expressions.Token>, minimum: nat)
    requires LiteralsFit(left) && TokensFit(tokens)
    ensures ReadingFits(Expressions.TreeLoop(left, tokens, minimum))
    decreases |tokens|, 1
  {
    hide TokensFit, Expressions.Suffix, Expressions.IsI128, Expressions.TreeExpression;
    if tokens != [] && Expressions.TokenOperator(tokens[0]).Some? {
      var operator := Expressions.TokenOperator(tokens[0]).value;
      var precedence := Expressions.Precedence(operator);
      if precedence >= minimum {
        AfterFirstFits(tokens);
        ExpressionFits(tokens[1..], precedence + 1);
        match Expressions.TreeExpression(tokens[1..], precedence + 1) {
          case Fail =>
          case Done(right, rest) => LoopFits(Expressions.Binary(operator, left, right), rest, minimum);
        }
      }
    }
  }

  lemma {:induction false} UnaryFits(tokens: seq<Expressions.Token>)
    requires TokensFit(tokens)
    ensures ReadingFits(Expressions.TreeUnary(tokens))
    decreases |tokens|, 0
  {
    hide TokensFit, Expressions.Suffix, Expressions.IsI128, Expressions.TreeExpression;
    if tokens != [] {
      AfterFirstFits(tokens);
      if Expressions.TokenUnary(tokens[0]).Some? {
        UnaryFits(tokens[1..]);
      } else if tokens[0].LeftParen? {
        ExpressionFits(tokens[1..], 0);
        match Expressions.TreeExpression(tokens[1..], 0) {
          case Fail =>
          case Done(_, rest) => if rest != [] { AfterFirstFits(rest); }
        }
      } else if tokens[0].Literal? {
        FirstLiteralFits(tokens);
      }
    }
  }

  lemma FirstLiteralFits(tokens: seq<Expressions.Token>)
    requires TokensFit(tokens) && tokens != [] && tokens[0].Literal?
    ensures Expressions.IsI128(tokens[0].value)
  {
  }

  lemma ParsedLiteralsFit(tokens: seq<Expressions.Token>)
    requires TokensFit(tokens) && Expressions.ParseText(tokens).Some?
    ensures LiteralsFit(Expressions.ParseText(tokens).value)
  {
    hide TokensFit, Expressions.TreeExpression;
    ExpressionFits(tokens, 0);
  }

  lemma SixteenBytes(raw: seq<Byte>)
    requires |raw| == 16
    ensures Expressions.IsI128(Expressions.FromBits(LittleEndianValue(raw)))
  {
    hide Powers.Pow2, LittleEndianValue;
    BytesBack(raw);
    Powers.Pow2Wide();
  }

  lemma {:induction false} DecodedTreeFits(bytes: seq<Byte>, depth: nat)
    ensures DecodeTree(bytes, depth).Done? ==> LiteralsFit(DecodeTree(bytes, depth).value)
    decreases |bytes|
  {
    hide DecodeText, LittleEndianValue, Expressions.FromBits, Expressions.IsI128, BinaryFor, UnaryFor;
    if depth <= MAX_TREE_DEPTH && bytes != [] {
      var after := bytes[1..];
      if bytes[0] == 0 && |after| >= 16 {
        SixteenBytes(after[..16]);
      } else if (bytes[0] == 2 || bytes[0] == 3) && after != [] {
        DecodedTreeFits(after[1..], depth + 1);
        match DecodeTree(after[1..], depth + 1) {
          case Fail =>
          case Done(_, middle) => DecodedTreeFits(middle, depth + 1);
        }
      }
    }
  }

  ghost predicate PairKept(t: BreakpointTables)
  {
    t.1.Keys <= t.0.Keys && ConditionsFit(t.1)
  }

  lemma {:induction false} DecodedBreakpointsKept(bytes: seq<Byte>, count: nat, t: BreakpointTables)
    requires PairKept(t)
    ensures DecodeBreakpoints(bytes, count, t).Done? ==> PairKept(DecodeBreakpoints(bytes, count, t).value)
    decreases count
  {
    hide DecodeWords, DecodeTree, LiteralsFit;
    if count > 0 && DecodeWords(bytes, 2).Done? {
      var entry, rest := DecodeWords(bytes, 2).value, DecodeWords(bytes, 2).rest;
      if DecodeCondition(rest).Done? {
        if rest[0] != 0 { DecodedTreeFits(rest[1..], 0); }
        var next := AddBreakpoint(t, entry[0], entry[1], DecodeCondition(rest).value);
        DecodedBreakpointsKept(DecodeCondition(rest).rest, count - 1, next);
      }
    }
  }

  lemma {:induction false} DecodedWatchpointsNumbered(bytes: seq<Byte>, count: nat, table: map<Word64, Watchpoint>)
    requires Numbered(table)
    ensures DecodeWatchpoints(bytes, count, table).Done? ==> Numbered(DecodeWatchpoints(bytes, count, table).value)
    decreases count
  {
    hide DecodeWords;
    if count > 0 && DecodeWords(bytes, 3).Done? {
      var entry, rest := DecodeWords(bytes, 3).value, DecodeWords(bytes, 3).rest;
      if rest != [] && KindFor(rest[0]).Some? {
        DecodedWatchpointsNumbered(rest[1..], count - 1,
                                   table[entry[0] := Watchpoint(entry[0], entry[1], entry[2], KindFor(rest[0]).value)]);
      }
    }
  }

  lemma DecodedTablesKept(bytes: seq<Byte>)
    requires DecodeTables(bytes).Done?
    ensures var t := DecodeTables(bytes).value; TablesFit(t) && t.conditions.Keys <= t.breakpoints.Keys
  {
    hide DecodeSymbolTable, DecodeMarkTable, DecodeCallStack, DecodeCount, DecodeBreakpoints, DecodeWatchpoints, LiteralsFit;
    var r1 := DecodeSymbolTable(bytes).rest;
    var r2 := DecodeMarkTable(r1).rest;
    DecodedBreakpointsKept(DecodeCount(r2).rest, DecodeCount(r2).value, (map[], map[]));
    var r3 := DecodeBreakpointTable(r2).rest;
    DecodedWatchpointsNumbered(DecodeCount(r3).rest, DecodeCount(r3).value, map[]);
  }

  /** Whatever file is read, the result is a monitor state of the kept form. */
  lemma DecodedIsKept(file: seq<Byte>)
    requires DecodeSnapshot(file).Some?
    ensures Kept(DecodeSnapshot(file).value)
  {
    hide DecodeTables, DecodeWords, DecodeNumber, Checksum, LittleEndianValue, TablesFit;
    var body := Unsealed(file).value;
    var r1 := DecodeNumber(body, 4).rest;
    var r2 := DecodeNumber(r1, 8).rest;
    var r3 := DecodeRegisters(r2).rest;
    DecodedTablesKept(r3);
  }

  lemma StepKeeps(s: Saved, c: Command)
    requires Kept(s) && Sane(c)
    ensures Kept(Step(s, c))
  {
    hide Expressions.ParseText, TokensFit, LiteralsFit, DecodeSnapshot, AddressOf, Expressions.IsI128;
    match c {
      case Break(_, condition) =>
        if condition.Some? && Expressions.ParseText(condition.value).Some? { ParsedLiteralsFit(condition.value); }
      case Restore(file) => if DecodeSnapshot(file).Some? { DecodedIsKept(file); }
      case _ =>
    }
  }

  ghost function Run(s: Saved, commands: seq<Command>): Saved
    decreases |commands|
  {
    if commands == [] then s else Run(Step(s, commands[0]), commands[1..])
  }

  ghost predicate Fresh(s: Saved)
  {
    RegistersFit(s.registers) && s.tables == Tables(map[], map[], map[], map[], map[], [])
  }

  lemma {:induction false} RunKeeps(s: Saved, commands: seq<Command>)
    requires Kept(s) && forall k :: 0 <= k < |commands| ==> Sane(commands[k])
    ensures Kept(Run(s, commands))
    decreases |commands|
  {
    hide Step, Kept, Sane;
    if commands != [] {
      StepKeeps(s, commands[0]);
      RunKeeps(Step(s, commands[0]), commands[1..]);
    }
  }

  /** Every monitor that commands can reach, once saved, is read back whole, exactly when its tables are within
      the reader's limits and no condition nests deeper than 128. */
  lemma ReachableSnapshotBack(start: Saved, commands: seq<Command>, orders: Orders)
    requires Fresh(start) && forall k :: 0 <= k < |commands| ==> Sane(commands[k])
    requires Visits(orders, Run(start, commands).tables) && SnapshotBytes(Run(start, commands), orders).Some?
    ensures DecodeSnapshot(SnapshotBytes(Run(start, commands), orders).value) ==
            if Within(Run(start, commands).tables) then Some(Run(start, commands)) else None
  {
    hide DecodeSnapshot, SnapshotBytes, Run, Within, Visits, Sane;
    RunKeeps(start, commands);
    SnapshotBack(Run(start, commands), orders);
    SnapshotRestoresIff(Run(start, commands), orders);
  }

  // ---- numbers ----

  /** Breakpoints are numbered apart, below the next number. */
  predicate UniqueIds(s: Saved)
  {
    && (forall k :: k in s.tables.breakpoints ==> s.tables.breakpoints[k] < s.registers.nextBreakpointId)
    && (forall j, k :: j in s.tables.breakpoints && k in s.tables.breakpoints && s.tables.breakpoints[j] == s.tables.breakpoints[k]
          ==> j == k)
    && (forall k :: k in s.tables.watchpoints ==> k < s.registers.nextWatchpointId)
  }

  /** Every command but reading a file keeps numbers apart; a file does when it was saved by such a monitor. */
  lemma StepKeepsIds(s: Saved, c: Command)
    requires UniqueIds(s) && (c.Restore? ==> DecodeSnapshot(c.file).Some? ==> UniqueIds(DecodeSnapshot(c.file).value))
    ensures UniqueIds(Step(s, c))
  {
    hide DecodeSnapshot, ParseCondition;
    if c.DeleteBreak? { assert DeleteBreakpoint(s, c.breakId).tables.breakpoints.Keys <= s.tables.breakpoints.Keys; }
  }

  /** Deleting the breakpoint just set, by its number, leaves every table as it was before. */
  lemma DeleteUndoesBreak(s: Saved, address: Word64, condition: Option<seq<Expressions.Token>>)
    requires UniqueIds(s) && Kept(s) && BreakAt(s, address, condition) != s
    ensures DeleteBreakpoint(BreakAt(s, address, condition), s.registers.nextBreakpointId).tables == s.tables
  {
    hide ParseCondition, TablesFit;
    var t := BreakAt(s, address, condition);
    var id := s.registers.nextBreakpointId;
    assert t.tables.breakpoints == s.tables.breakpoints[address := id];
    assert Holders(t.tables.breakpoints, id) == {address};
    assert AddressOf(t.tables.breakpoints, id) == Some(address);
    assert t.tables.breakpoints - {address} == s.tables.breakpoints;
    assert t.tables.conditions - {address} == s.tables.conditions;
  }

  // ---- the monitor's own tables ----

  class Monitor {
    var x: seq<Word64>
    var f: seq<Word64>
    var fcsr: Word32
    var pc: Word64
    var instructions: Word64
    var memory: seq<Byte>
    var viewAddress: Word64
    var symbols: map<Word64, string>
    var marks: map<string, Word64>
    var breakpoints: map<Word64, Word64>
    var conditions: Conditions
    var watchpoints: map<Word64, Watchpoint>
    var nextBreakpointId: Word64
    var nextWatchpointId: Word64
    var callStack: seq<CallFrame>

    function CurrentRegisters(): Registers
      reads `x, `f, `fcsr, `pc, `instructions, `viewAddress, `nextBreakpointId, `nextWatchpointId
    {
      Registers(x, f, fcsr, pc, instructions, viewAddress, nextBreakpointId, nextWatchpointId)
    }

    function CurrentTables(): Tables
      reads `symbols, `marks, `breakpoints, `conditions, `watchpoints, `callStack
    {
      Tables(symbols, marks, breakpoints, conditions, watchpoints, callStack)
    }

    function State(): Saved
      reads this
    {
      Saved(CurrentRegisters(), CurrentTables(), memory)
    }

    constructor (memorySize: nat)
      ensures Fresh(State()) && Kept(State()) && UniqueIds(State())
    {
      x, f := seq(32, i => 0), seq(32, i => 0xffff_ffff_0000_0000);
      fcsr, pc, instructions, viewAddress := 0, 0, 0, 0;
      memory := seq<Byte>(memorySize, i => 0);
      symbols, marks, breakpoints, conditions, watchpoints := map[], map[], map[], map[], map[];
      nextBreakpointId, nextWatchpointId, callStack := 1, 1, [];
    }

    method AddBreakpoint(address: Word64, condition: Option<seq<Expressions.Token>>)
      modifies `breakpoints, `conditions, `nextBreakpointId
      ensures State() == Step(old(State()), Break(address, condition))
    {
      hide Expressions.ParseText;
      if address % 4 != 0 { return; }
      if address in breakpoints { return; }
      var parsed: Option<Expressions.Tree> := None;
      if condition.Some? {
        parsed := Expressions.ParseText(condition.value);
        if parsed.None? { return; }
      }
      var id := nextBreakpointId;
      if id == LAST_ID { return; }
      nextBreakpointId := id + 1;
      breakpoints := breakpoints[address := id];
      if parsed.Some? { conditions := conditions[address := parsed.value]; }
    }

    method AddWatchpoint(address: Word64, width: Word64, kind: Option<AccessKind>)
      modifies `watchpoints, `nextWatchpointId
      ensures State() == Step(old(State()), Watch(address, width, kind))
    {
      if !IsWidth(width) || nextWatchpointId == LAST_ID { return; }
      var id := nextWatchpointId;
      nextWatchpointId := id + 1;
      watchpoints := watchpoints[id := Watchpoint(id, address, width, kind)];
    }

    /** Deletes the breakpoint with a number, and its condition with it. */
    method Delete(id: Word64)
      modifies `breakpoints, `conditions
      ensures State() == Step(old(State()), DeleteBreak(id))
    {
      hide AddressOf;
      var address := AddressOf(breakpoints, id);
      if address.None? { return; }
      breakpoints := breakpoints - {address.value};
      conditions := conditions - {address.value};
    }

    method SnapshotBytes(orders: Orders) returns (file: Option<seq<Byte>>)
      requires Visits(orders, State().tables)
      ensures file == Persistence.SnapshotBytes(State(), orders)
    {
      file := PersistenceFiles.Save(State(), orders);
    }

    method ApplyRegisters(r: Registers)
      modifies `x, `f, `fcsr, `pc, `instructions, `viewAddress, `nextBreakpointId, `nextWatchpointId
      ensures CurrentRegisters() == r
    {
      x, f, fcsr, pc, instructions := r.x, r.f, r.fcsr, r.pc, r.instructions;
      viewAddress, nextBreakpointId, nextWatchpointId := r.viewAddress, r.nextBreakpointId, r.nextWatchpointId;
    }

    method ApplyTables(t: Tables)
      modifies `symbols, `marks, `breakpoints, `conditions, `watchpoints, `callStack
      ensures CurrentTables() == t
    {
      symbols, marks, breakpoints, conditions := t.symbols, t.marks, t.breakpoints, t.conditions;
      watchpoints, callStack := t.watchpoints, t.callStack;
    }

    method ApplySnapshot(decoded: Saved)
      modifies this
      ensures State() == decoded
    {
      hide CurrentRegisters, CurrentTables;
      ApplyRegisters(decoded.registers);
      ApplyTables(decoded.tables);
      memory := decoded.memory;
    }

    method RestoreSnapshot(file: seq<Byte>) returns (ok: bool)
      modifies this
      ensures State() == Step(old(State()), Restore(file)) && ok == DecodeSnapshot(file).Some?
    {
      hide DecodeSnapshot, State, BreakAt, WatchAt, DeleteBreakpoint;
      var decoded := PersistenceFiles.Load(file);
      if decoded.None? { return false; }
      ApplySnapshot(decoded.value);
      return true;
    }
  }
}
