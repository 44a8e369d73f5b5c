/** The state the guest monitor keeps beside the program it debugs, its commands and
    its trap handler: permanent breakpoints, the temporary breakpoint of a single step,
    the permanent slot being stepped over, the undo record and the snapshot, all laid
    over one RAM; watchpoints; the source text and its symbols. */
module GuestState {
  import opened Bytes
  import opened Options
  import opened Powers
  import opened BitOps

  const RAM_START: int := 0x8000_0000
  const RAM_SIZE: int := 0x400_0000
  const RAM_END: int := 0x8400_0000
  const WORKSPACE_START: int := 0x8100_0000
  const WORKSPACE_BYTES: int := 0x1_0000
  const DATA_START: int := 0x8200_0000
  const DATA_BYTES: int := 0x10_0000
  const EBREAK_WORD: Word32 := 0x0010_0073
  const SLOTS := 4
  const NO_SLOT := 255
  const MAX_EDIT_BYTES := 32
  const WATCHES := 4
  const BREAKPOINT_CAUSE := 3
  const ENVIRONMENT_CALL := 8
  const EXTERNAL_INTERRUPT := 11
  const INTERRUPT_BIT := 0x8000_0000_0000_0000
  const MAX_WRITE_BUFFER := 4096

  datatype Breakpoint = Breakpoint(address: Word64, originalWord: Word32, enabled: bool)

  const DISABLED := Breakpoint(0, 0, false)

  /** The last accepted edit: what was there and what was written. */
  datatype MemoryUndo = MemoryUndo(address: Word64, original: seq<Byte>, edited: seq<Byte>, valid: bool)

  const NO_UNDO := MemoryUndo(0, [], [], false)

  datatype Context = Context(x: seq<Word64>, pc: Word64, mepc: Word64, mcause: Word64)

  datatype WatchKind = Read | Write | Any
  datatype Watchpoint = Watchpoint(address: Word64, width: Word64, kind: WatchKind, enabled: bool)

  const UNWATCHED := Watchpoint(0, 0, Any, false)

  datatype Symbol = Symbol(name: seq<Byte>, length: nat, address: Word64, enabled: bool)

  /** The source text kept for reassembly, and the symbols it defined. */
  datatype Document = Document(lines: seq<seq<Byte>>, lengths: seq<nat>, count: nat, address: Word64, symbols: seq<Symbol>)

  datatype Snapshot = Snapshot(
    valid: bool, context: Context, workspace: seq<Byte>, data: seq<Byte>, document: Document,
    breakpoints: seq<Breakpoint>, watchpoints: seq<Watchpoint>)

  /** Who runs: the monitor reads commands, or the target executes. */
  datatype Control = Monitor | Target

  datatype State = State(
    ram: seq<Byte>, permanent: seq<Breakpoint>, temporary: Breakpoint, stepped: nat,
    undo: MemoryUndo, snapshot: Snapshot, runRemaining: nat, watchpoints: seq<Watchpoint>, document: Document,
    context: Context, control: Control)

  predicate WellFormed(s: State)
  {
    |s.ram| == RAM_SIZE && |s.permanent| == SLOTS && |s.watchpoints| == WATCHES && |s.context.x| == 32
    && (s.stepped < SLOTS || s.stepped == NO_SLOT)
    && |s.undo.original| == |s.undo.edited|
    && (s.undo.valid ==> RAM_START <= s.undo.address && s.undo.address + |s.undo.edited| <= RAM_END)
    && (s.snapshot.valid ==>
          |s.snapshot.workspace| == WORKSPACE_BYTES && |s.snapshot.data| == DATA_BYTES
          && |s.snapshot.breakpoints| == SLOTS && |s.snapshot.watchpoints| == WATCHES && |s.snapshot.context.x| == 32)
  }

  // ---- words in RAM ----

  predicate ValidWordAddress(address: int)
  {
    address % 4 == 0 && RAM_START <= address && address + 4 <= RAM_END
  }

  /** Byte k of a little-endian word. */
  function ByteOf(word: Word32, k: nat): Byte
    requires k < 4
  {
    if k == 0 then word % 0x100
    else if k == 1 then word / 0x100 % 0x100
    else if k == 2 then word / 0x1_0000 % 0x100
    else word / 0x100_0000 % 0x100
  }

  function Compose(b0: int, b1: int, b2: int, b3: int): Word32
    requires 0 <= b0 < 0x100 && 0 <= b1 < 0x100 && 0 <= b2 < 0x100 && 0 <= b3 < 0x100
  {
    b0 + 0x100 * b1 + 0x1_0000 * b2 + 0x100_0000 * b3
  }

  function WordAt(ram: seq<Byte>, address: int): Word32
    requires |ram| == RAM_SIZE && ValidWordAddress(address)
  {
    var i := address - RAM_START;
    Compose(ram[i], ram[i + 1], ram[i + 2], ram[i + 3])
  }

  function TargetLoad32(ram: seq<Byte>, address: int): Option<Word32>
    requires |ram| == RAM_SIZE
  {
    if ValidWordAddress(address) then Some(WordAt(ram, address)) else None
  }

  function StoreBytes(ram: seq<Byte>, address: int, bytes: seq<Byte>): (r: seq<Byte>)
    requires |ram| == RAM_SIZE && RAM_START <= address && address + |bytes| <= RAM_END
    ensures |r| == RAM_SIZE
  {
    ram[..address - RAM_START] + bytes + ram[address - RAM_START + |bytes|..]
  }

  function WordBytes(word: Word32): (r: seq<Byte>)
    ensures |r| == 4
  {
    [ByteOf(word, 0), ByteOf(word, 1), ByteOf(word, 2), ByteOf(word, 3)]
  }

  function StoreWord(ram: seq<Byte>, address: int, word: Word32): (r: seq<Byte>)
    requires |ram| == RAM_SIZE && ValidWordAddress(address)
    ensures |r| == RAM_SIZE
  {
    StoreBytes(ram, address, WordBytes(word))
  }

  function WordOf(address: int): int
  {
    address - address % 4
  }

  // ---- looking up breakpoints ----

  function SlotFrom(table: seq<Breakpoint>, address: int, slot: nat): (r: Option<nat>)
    requires slot <= |table|
    ensures r.Some? ==> slot <= r.value < |table| && table[r.value].enabled && table[r.value].address == address
    ensures r.None? ==> forall i :: slot <= i < |table| && table[i].enabled ==> table[i].address != address
    decreases |table| - slot
  {
    if slot == |table| then None
    else if table[slot].enabled && table[slot].address == address then Some(slot)
    else SlotFrom(table, address, slot + 1)
  }

  function PermanentAt(s: State, address: int): (r: Option<nat>)
  {
    SlotFrom(s.permanent, address, 0)
  }

  predicate TemporaryAt(s: State, address: int)
  {
    s.temporary.enabled && s.temporary.address == address
  }

  function FreeFrom(table: seq<Breakpoint>, slot: nat): (r: Option<nat>)
    requires slot <= |table|
    ensures r.Some? ==> slot <= r.value < |table| && !table[r.value].enabled
    ensures r.None? ==> forall i :: slot <= i < |table| ==> table[i].enabled
    decreases |table| - slot
  {
    if slot == |table| then None
    else if !table[slot].enabled then Some(slot)
    else FreeFrom(table, slot + 1)
  }

  // ---- break and delete ----

  function BreakTarget(s: State, address: Word64): (r: State)
    requires WellFormed(s)
    ensures WellFormed(r)
  {
    if !ValidWordAddress(address) then s
    else if PermanentAt(s, address).Some? then s
    else if TemporaryAt(s, address) then s
    else match FreeFrom(s.permanent, 0)
      case None => s
      case Some(slot) =>
        s.(undo := NO_UNDO,
           ram := StoreWord(s.ram, address, EBREAK_WORD),
           permanent := s.permanent[slot := Breakpoint(address, WordAt(s.ram, address), true)])
  }

  function DeleteBreakpoint(s: State, number: nat): (r: State)
    requires WellFormed(s)
    ensures WellFormed(r)
  {
    if number == 0 || number > SLOTS then s
    else
      var slot := number - 1;
      var breakpoint := s.permanent[slot];
      if !breakpoint.enabled then s
      else if TargetLoad32(s.ram, breakpoint.address) != Some(EBREAK_WORD) then s
      else
        s.(undo := NO_UNDO,
           ram := StoreWord(s.ram, breakpoint.address, breakpoint.originalWord),
           permanent := s.permanent[slot := DISABLED])
  }

  // ---- edit and undo ----

  datatype WriteError = Overflow | OutsideRam | ActiveBreakpoint
  datatype WriteResult = Written(state: State) | Refused(error: WriteError)

  /** The word of this byte carries a breakpoint. */
  predicate OnBreakpoint(s: State, byteAddress: int)
  {
    PermanentAt(s, WordOf(byteAddress)).Some? || TemporaryAt(s, WordOf(byteAddress))
  }

  predicate TouchesBreakpoint(s: State, address: int, length: nat)
  {
    exists byteAddress :: address <= byteAddress < address + length && OnBreakpoint(s, byteAddress)
  }

  function WriteMemoryTransaction(s: State, address: Word64, edited: seq<Byte>): (r: WriteResult)
    requires WellFormed(s)
    ensures r.Written? ==> WellFormed(r.state)
  {
    var end := address + |edited|;
    if end >= 0x1_0000_0000_0000_0000 then Refused(Overflow)
    else if address < RAM_START || end > RAM_END then Refused(OutsideRam)
    else if TouchesBreakpoint(s, address, |edited|) then Refused(ActiveBreakpoint)
    else
      var original := s.ram[address - RAM_START..end - RAM_START];
      Written(s.(ram := StoreBytes(s.ram, address, edited),
                 undo := MemoryUndo(address, original, edited, true)))
  }

  function EditMemory(s: State, address: Word64, edited: seq<Byte>): (r: State)
    requires WellFormed(s)
    ensures WellFormed(r)
  {
    if s.context.mcause != BREAKPOINT_CAUSE then s
    else match WriteMemoryTransaction(s, address, edited)
      case Written(t) => t
      case Refused(_) => s
  }

  function UndoMemory(s: State): (r: State)
    requires WellFormed(s)
    ensures WellFormed(r)
  {
    if s.context.mcause != BREAKPOINT_CAUSE then s
    else if !s.undo.valid then s
    else
      var undo := s.undo;
      var i := undo.address - RAM_START;
      if s.ram[i..i + |undo.edited|] != undo.edited then s.(undo := NO_UNDO)
      else s.(undo := NO_UNDO, ram := StoreBytes(s.ram, undo.address, undo.original))
  }

  // ---- watchpoints ----

  function FreeWatch(table: seq<Watchpoint>, slot: nat): (r: Option<nat>)
    requires slot <= |table|
    ensures r.Some? ==> slot <= r.value < |table| && !table[r.value].enabled
    ensures r.None? ==> forall i :: slot <= i < |table| ==> table[i].enabled
    decreases |table| - slot
  {
    if slot == |table| then None else if !table[slot].enabled then Some(slot) else FreeWatch(table, slot + 1)
  }

  function AddWatchpoint(s: State, address: Word64, width: Word64, kind: WatchKind): (r: State)
    requires WellFormed(s)
    ensures WellFormed(r)
  {
    if address + width >= 0x1_0000_0000_0000_0000 then s
    else if width == 0 || width > 8 || address < RAM_START || address + width > RAM_END then s
    else match FreeWatch(s.watchpoints, 0)
      case None => s
      case Some(slot) => s.(watchpoints := s.watchpoints[slot := Watchpoint(address, width, kind, true)])
  }

  function DeleteWatchpoint(s: State, number: nat): (r: State)
    requires WellFormed(s)
    ensures WellFormed(r)
  {
    if number == 0 || number > WATCHES then s
    else if !s.watchpoints[number - 1].enabled then s
    else s.(watchpoints := s.watchpoints[number - 1 := UNWATCHED])
  }

  datatype Access = Access(kind: WatchKind, address: Word64)

  /** The eight bytes that a doubleword load or store goes to; other instructions are not watched. */
  function WatchedAccess(context: Context, word: Word32): Option<Access>
    requires |context.x| == 32
  {
    var opcode := word % 0x80;
    var funct3 := word / 0x1000 % 8;
    var base := context.x[word / 0x8000 % 32];
    SmallPowers();
    if opcode == 0x03 && funct3 == 3 then
      assert word / 0x10_0000 < Pow2(12);
      Some(Access(Read, WrapAdd(base, SignExtend(word / 0x10_0000, 12))))
    else if opcode == 0x23 && funct3 == 3 then
      var immediate := word / 0x200_0000 % 0x80 * 0x20 + word / 0x80 % 0x20;
      Some(Access(Write, WrapAdd(base, SignExtend(immediate, 12))))
    else None
  }

  /** The table is searched in order; a watchpoint whose end would overflow ends the search. */
  function WatchFrom(table: seq<Watchpoint>, access: Access, slot: nat): (r: Option<nat>)
    requires slot <= |table|
    ensures r.Some? ==> slot <= r.value < |table|
    decreases |table| - slot
  {
    if slot == |table| then None
    else
      var w := table[slot];
      if !w.enabled then WatchFrom(table, access, slot + 1)
      else if w.address + w.width >= 0x1_0000_0000_0000_0000 then None
      else if (w.kind == Any || w.kind == access.kind)
              && access.address < w.address + w.width && w.address < access.address + 8 then Some(slot)
      else WatchFrom(table, access, slot + 1)
  }

  function WatchpointForInstruction(context: Context, word: Word32, table: seq<Watchpoint>): (r: Option<nat>)
    requires |context.x| == 32
    ensures r.Some? ==> r.value < |table|
  {
    match WatchedAccess(context, word)
    case None => None
    case Some(access) =>
      if access.address + 8 >= 0x1_0000_0000_0000_0000 then None else WatchFrom(table, access, 0)
  }

  // ---- single step ----

  function WrapAdd(a: Word64, b: Word64): Word64
  {
    (a + b) % 0x1_0000_0000_0000_0000
  }

  /** A field of `width` bits, sign-extended to 64. */
  function SignExtend(field: nat, width: nat): Word64
    requires field < Pow2(width) && 0 < width <= 32
  {
    assert Pow2(width) <= 0x1_0000_0000 by { Pow2Mono(width, 32); Pow2Bytes(); }
    if field >= Pow2(width - 1) then 0x1_0000_0000_0000_0000 - Pow2(width) + field else field
  }

  function BranchImmediate(word: Word32): (r: nat)
    ensures r < Pow2(13)
  {
    Divide(word, 32);
    var sign := Low(Shr(word, 31), 1);
    var high := Low(Shr(word, 25), 6);
    var low := Low(Shr(word, 8), 4);
    var eleven := Low(Shr(word, 7), 1);
    FieldBounds(word);
    SmallPowers();
    sign * 0x1000 + high * 0x20 + low * 2 + eleven * 0x800
  }

  function JalImmediate(word: Word32): (r: nat)
    ensures r < Pow2(21)
  {
    var sign := Low(Shr(word, 31), 1);
    var low := Low(Shr(word, 21), 10);
    var eleven := Low(Shr(word, 20), 1);
    var high := Low(Shr(word, 12), 8);
    FieldBounds(word);
    SmallPowers();
    sign * 0x10_0000 + low * 2 + eleven * 0x800 + high * 0x1000
  }

  lemma SmallPowers()
    ensures Pow2(1) == 2 && Pow2(4) == 0x10 && Pow2(6) == 0x40 && Pow2(8) == 0x100 && Pow2(10) == 0x400
    ensures Pow2(12) == 0x1000 && Pow2(13) == 0x2000 && Pow2(21) == 0x20_0000
  {
    Pow2Single();
    Pow2Plus3(10);
    Pow2Plus8(13);
  }

  lemma FieldBounds(word: nat)
    ensures forall k: nat, n: nat :: Low(Shr(word, k), n) < Pow2(n)
  {
    forall k: nat, n: nat ensures Low(Shr(word, k), n) < Pow2(n) { Divide(Shr(word, k), n); }
  }

  /** Where control goes after the instruction, for the flow the stepper understands. */
  function NextExecutionPc(context: Context, pc: Word64, word: Word32): Option<Word64>
    requires |context.x| == 32
  {
    var opcode := word % 0x80;
    var funct3 := word / 0x1000 % 8;
    var rs1 := word / 0x8000 % 32;
    var rs2 := word / 0x10_0000 % 32;
    if opcode == 0x63 then
      if funct3 > 1 then None
      else
        var taken := if funct3 == 0 then context.x[rs1] == context.x[rs2] else context.x[rs1] != context.x[rs2];
        SmallPowers();
        Some(WrapAdd(pc, if taken then SignExtend(BranchImmediate(word), 13) else 4))
    else if opcode == 0x6f then Some(WrapAdd(pc, SignExtend(JalImmediate(word), 21)))
    else if opcode == 0x67 then
      if funct3 != 0 then None
      else
        assert word / 0x10_0000 < Pow2(12) by { SmallPowers(); }
        var target := WrapAdd(context.x[rs1], SignExtend(word / 0x10_0000, 12));
        Some(target - target % 2)
    else if pc + 4 >= 0x1_0000_0000_0000_0000 then None
    else Some(pc + 4)
  }

  /** None when the temporary breakpoint cannot be placed. */
  function InstallTemporary(s: State, address: Word64): (r: Option<State>)
    requires WellFormed(s)
    ensures r.Some? ==> WellFormed(r.value) && r.value.context == s.context
  {
    if PermanentAt(s, address).Some? then None
    else match TargetLoad32(s.ram, address)
      case None => None
      case Some(originalWord) =>
        Some(s.(undo := NO_UNDO,
                ram := StoreWord(s.ram, address, EBREAK_WORD),
                temporary := Breakpoint(address, originalWord, true)))
  }

  function RestoreTemporary(s: State): (r: State)
    requires WellFormed(s)
    ensures WellFormed(r)
  {
    if !s.temporary.enabled then s
    else
      var ram := if ValidWordAddress(s.temporary.address)
                 then StoreWord(s.ram, s.temporary.address, s.temporary.originalWord) else s.ram;
      s.(ram := ram, temporary := DISABLED)
  }

  function RestoreStepped(s: State): (r: State)
    requires WellFormed(s)
    ensures WellFormed(r)
  {
    if s.stepped == NO_SLOT then s
    else
      var breakpoint := s.permanent[s.stepped];
      var ram := if breakpoint.enabled && TargetLoad32(s.ram, breakpoint.address) == Some(breakpoint.originalWord)
                 then StoreWord(s.ram, breakpoint.address, EBREAK_WORD) else s.ram;
      s.(ram := ram, stepped := NO_SLOT)
  }

  /** Ready to step over a permanent breakpoint, or (false) not; the state may differ only on success. */
  function PreparePermanentStep(s: State, slot: nat): (r: (State, bool))
    requires WellFormed(s) && slot < SLOTS
    ensures WellFormed(r.0)
  {
    var breakpoint := s.permanent[slot];
    if !breakpoint.enabled || breakpoint.originalWord == EBREAK_WORD then (s, false)
    else match NextExecutionPc(s.context, s.context.pc, breakpoint.originalWord)
      case None => (s, false)
      case Some(stopPc) =>
        if stopPc == s.context.pc || !ValidWordAddress(stopPc) then (s, false)
        else if !ValidWordAddress(breakpoint.address) then (s, false)
        else
          var t := s.(ram := StoreWord(s.ram, breakpoint.address, breakpoint.originalWord), stepped := slot);
          var context := s.context.(mepc := s.context.pc);
          if PermanentAt(t, stopPc).Some? then (t.(context := context), true)
          else match InstallTemporary(t, stopPc)
            case None => (RestoreStepped(t), false)
            case Some(u) => (u.(context := context), true)
  }

  function ResumeTarget(s: State): State
  {
    s.(control := Target)
  }

  function MonitorLoop(s: State): State
  {
    s.(control := Monitor)
  }

  function AtPc(s: State, pc: Word64): State
  {
    s.(context := s.context.(pc := pc, mepc := pc))
  }

  /** Resume for one instruction. */
  function ResumeSingleStep(s: State): (r: State)
    requires WellFormed(s)
    ensures WellFormed(r)
  {
    var pc := s.context.pc;
    match TargetLoad32(s.ram, pc)
    case None => MonitorLoop(s)
    case Some(currentWord) =>
      if currentWord == EBREAK_WORD && PermanentAt(s, pc).Some? then
        var (t, ready) := PreparePermanentStep(s, PermanentAt(s, pc).value);
        if ready then ResumeTarget(t) else MonitorLoop(t)
      else
        // A pc loaded from RAM is far below 2^64, so adding 4 cannot overflow.
        var instructionPc := if currentWord == EBREAK_WORD then pc + 4 else pc;
        match TargetLoad32(s.ram, instructionPc)
        case None => MonitorLoop(s)
        case Some(word) =>
          if word == EBREAK_WORD then ResumeTarget(AtPc(s, instructionPc))
          else if WatchpointForInstruction(s.context, word, s.watchpoints).Some? then MonitorLoop(s.(runRemaining := 0))
          else match NextExecutionPc(s.context, instructionPc, word)
            case None => MonitorLoop(s)
            case Some(stopPc) =>
              match InstallTemporary(s, stopPc)
              case None => MonitorLoop(s)
              case Some(t) => ResumeTarget(AtPc(t, instructionPc))
  }

  function StepTarget(s: State): (r: State)
    requires WellFormed(s)
    ensures WellFormed(r)
  {
    if s.context.mcause != BREAKPOINT_CAUSE then MonitorLoop(s) else ResumeSingleStep(s)
  }

  function RunTarget(s: State, budget: nat): (r: State)
    requires WellFormed(s)
    ensures WellFormed(r)
  {
    if s.context.mcause != BREAKPOINT_CAUSE then MonitorLoop(s)
    else if budget == 0 || budget > 100_000 then MonitorLoop(s)
    else ResumeSingleStep(s.(runRemaining := budget))
  }

  function ContinueTarget(s: State): (r: State)
    requires WellFormed(s)
    ensures WellFormed(r)
  {
    var pc := s.context.pc;
    if s.context.mcause != BREAKPOINT_CAUSE then MonitorLoop(s)
    else match TargetLoad32(s.ram, pc)
      case None => MonitorLoop(s)
      case Some(word) =>
        if word == EBREAK_WORD && PermanentAt(s, pc).Some? then
          var (t, ready) := PreparePermanentStep(s, PermanentAt(s, pc).value);
          if ready then ResumeTarget(t) else MonitorLoop(t)
        else ResumeTarget(AtPc(s, if word == EBREAK_WORD then pc + 4 else pc))
  }

  // ---- traps ----

  /** The registers as the trap entry saves them. */
  function Entered(s: State, mcause: Word64, mepc: Word64): State
  {
    s.(context := s.context.(pc := mepc, mepc := mepc, mcause := mcause))
  }

  predicate IsExternalInterrupt(mcause: Word64)
  {
    mcause >= INTERRUPT_BIT && mcause - INTERRUPT_BIT == EXTERNAL_INTERRUPT
  }

  datatype Service = WriteChar | ReadChar | Exit | WriteBuffer | PollChar | PollBreak | Unknown

  function ServiceOf(number: Word64): Service
  {
    if number == 1 then WriteChar
    else if number == 2 then ReadChar
    else if number == 3 then Exit
    else if number == 4 then WriteBuffer
    else if number == 5 then PollChar
    else if number == 6 then PollBreak
    else Unknown
  }

  predicate BufferInRam(address: Word64, length: Word64)
  {
    length <= MAX_WRITE_BUFFER && address >= RAM_START && address + length < 0x1_0000_0000_0000_0000 && address + length <= RAM_END
  }

  function ResumeAfterCall(s: State): State
  {
    if s.context.mepc + 4 >= 0x1_0000_0000_0000_0000 then MonitorLoop(s)
    else
      var next: Word64 := s.context.mepc + 4;
      ResumeTarget(s.(context := s.context.(pc := next, mepc := next, mcause := BREAKPOINT_CAUSE)))
  }

  /** The services of the environment call; `input` is the character the console gives. None of them touches what
      the monitor has planted. */
  function EnvironmentCall(s: State, input: Byte): (r: State)
    requires WellFormed(s)
    ensures WellFormed(r)
  {
    var x := s.context.x;
    match ServiceOf(x[17])
    case WriteChar => ResumeAfterCall(s)
    case ReadChar => ResumeAfterCall(s.(context := s.context.(x := x[10 := input])))
    case PollChar => ResumeAfterCall(s.(context := s.context.(x := x[10 := input])))
    case PollBreak => ResumeAfterCall(s.(context := s.context.(x := x[10 := input])))
    case WriteBuffer => if BufferInRam(x[10], x[11]) then ResumeAfterCall(s) else MonitorLoop(s)
    case Exit => MonitorLoop(s.(context := s.context.(mcause := BREAKPOINT_CAUSE)))
    case Unknown => MonitorLoop(s)
  }

  /** Every other trap: temporary state is put back first. */
  function StopOrStep(s: State): (r: State)
    requires WellFormed(s)
    ensures WellFormed(r)
  {
    var t := RestoreStepped(RestoreTemporary(s));
    var budgetStop := s.context.mcause == BREAKPOINT_CAUSE && PermanentAt(t, s.context.mepc).None?
      && TargetLoad32(t.ram, s.context.mepc) != Some(EBREAK_WORD);
    if !budgetStop then MonitorLoop(t.(runRemaining := 0))
    else if t.runRemaining > 1 then ResumeSingleStep(t.(runRemaining := t.runRemaining - 1))
    else if t.runRemaining > 0 then MonitorLoop(t.(runRemaining := 0))
    else MonitorLoop(t)
  }

  function Trap(s: State, mcause: Word64, mepc: Word64, input: Byte): (r: State)
    requires WellFormed(s)
    ensures WellFormed(r)
  {
    var t := Entered(s, mcause, mepc);
    if IsExternalInterrupt(mcause) then ResumeTarget(t)
    else if mcause == ENVIRONMENT_CALL then EnvironmentCall(t, input)
    else StopOrStep(t)
  }

  // ---- snapshots ----

  predicate InWorkspace(address: int, length: nat)
  {
    WORKSPACE_START <= address && address + length <= WORKSPACE_START + WORKSPACE_BYTES
  }

  predicate InData(address: int, length: nat)
  {
    DATA_START <= address && address + length <= DATA_START + DATA_BYTES
  }

  predicate InSnapshotRegion(address: int)
  {
    InWorkspace(address, 4) || InData(address, 4)
  }

  function Region(ram: seq<Byte>, start: int, length: nat): (r: seq<Byte>)
    requires |ram| == RAM_SIZE && RAM_START <= start && start + length <= RAM_END
    ensures |r| == length
  {
    ram[start - RAM_START..start - RAM_START + length]
  }

  /** A saved region with a word put back. */
  function Patch(region: seq<Byte>, offset: nat, word: Word32): (r: seq<Byte>)
    requires offset + 4 <= |region|
    ensures |r| == |region|
  {
    region[..offset] + WordBytes(word) + region[offset + 4..]
  }

  /** A slot in a captured region is kept and its original word put back; any other is saved disabled. */
  function CaptureSlot(b: Breakpoint, slot: nat, snapshot: Snapshot): (r: Snapshot)
    requires slot < SLOTS && |snapshot.breakpoints| == SLOTS
    requires |snapshot.workspace| == WORKSPACE_BYTES && |snapshot.data| == DATA_BYTES
    ensures |r.workspace| == WORKSPACE_BYTES && |r.data| == DATA_BYTES
    ensures r.context == snapshot.context && r.document == snapshot.document && r.watchpoints == snapshot.watchpoints
    ensures r.breakpoints == snapshot.breakpoints[slot := if b.enabled && InSnapshotRegion(b.address) then b else DISABLED]
  {
    if b.enabled && InWorkspace(b.address, 4) then
      snapshot.(workspace := Patch(snapshot.workspace, b.address - WORKSPACE_START, b.originalWord),
                breakpoints := snapshot.breakpoints[slot := b])
    else if b.enabled && InData(b.address, 4) then
      snapshot.(data := Patch(snapshot.data, b.address - DATA_START, b.originalWord),
                breakpoints := snapshot.breakpoints[slot := b])
    else snapshot.(breakpoints := snapshot.breakpoints[slot := DISABLED])
  }

  /** Slots are saved in order. */
  function CaptureSlots(table: seq<Breakpoint>, slot: nat, snapshot: Snapshot): (r: Snapshot)
    requires slot <= |table| == SLOTS && |snapshot.breakpoints| == SLOTS
    requires |snapshot.workspace| == WORKSPACE_BYTES && |snapshot.data| == DATA_BYTES
    ensures |r.workspace| == WORKSPACE_BYTES && |r.data| == DATA_BYTES && |r.breakpoints| == SLOTS
    ensures r.context == snapshot.context && r.document == snapshot.document && r.watchpoints == snapshot.watchpoints
    decreases |table| - slot
  {
    if slot == |table| then snapshot
    else
      CaptureSlots(table, slot + 1, CaptureSlot(table[slot], slot, snapshot))
  }

  /** Everything copied as it is, before the slots are gone through. */
  function RawSnapshot(s: State): Snapshot
    requires WellFormed(s)
  {
    Snapshot(false, s.context, Region(s.ram, WORKSPACE_START, WORKSPACE_BYTES), Region(s.ram, DATA_START, DATA_BYTES),
             s.document, s.permanent, s.watchpoints)
  }

  function SaveSnapshot(s: State): (r: State)
    requires WellFormed(s)
    ensures WellFormed(r)
  {
    if s.context.mcause != BREAKPOINT_CAUSE then s
    else
      var raw := RawSnapshot(s);
      s.(snapshot := CaptureSlots(s.permanent, 0, raw).(valid := true))
  }

  /** EBREAK is stored at every enabled slot of the table, in order. */
  function ArmSlots(ram: seq<Byte>, table: seq<Breakpoint>, slot: nat): (r: seq<Byte>)
    requires |ram| == RAM_SIZE && slot <= |table|
    ensures |r| == RAM_SIZE
    decreases |table| - slot
  {
    if slot == |table| then ram
    else
      var b := table[slot];
      ArmSlots(if b.enabled && ValidWordAddress(b.address) then StoreWord(ram, b.address, EBREAK_WORD) else ram,
               table, slot + 1)
  }

  function RestoreSnapshot(s: State): (r: State)
    requires WellFormed(s)
    ensures WellFormed(r)
  {
    if !s.snapshot.valid then s
    else
      var ram := StoreBytes(StoreBytes(s.ram, WORKSPACE_START, s.snapshot.workspace), DATA_START, s.snapshot.data);
      s.(ram := ArmSlots(ram, s.snapshot.breakpoints, 0), permanent := s.snapshot.breakpoints,
         temporary := DISABLED, stepped := NO_SLOT, runRemaining := 0, undo := NO_UNDO,
         watchpoints := s.snapshot.watchpoints, document := s.snapshot.document, context := s.snapshot.context)
  }
}
