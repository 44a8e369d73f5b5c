/** The guest monitor as it runs: RAM and the breakpoint table are written in
    place. Every command leaves exactly the state its specification gives. */
module GuestDebugger {
  import opened Bytes
  import opened Options
  import opened GuestState

  class GuestMonitor {
    const ram: array<Byte>
    const permanent: array<Breakpoint>
    const watchpoints: array<Watchpoint>
    var temporary: Breakpoint
    var stepped: nat
    var undo: MemoryUndo
    var snapshot: Snapshot
    var runRemaining: nat
    var document: Document
    var context: Context
    var control: Control

    ghost function Abstract(): State
      reads this, ram, permanent, watchpoints
    {
      State(ram[..], permanent[..], temporary, stepped, undo, snapshot, runRemaining, watchpoints[..], document, context, control)
    }

    ghost predicate Valid()
      reads this, ram, permanent, watchpoints
    {
      WellFormed(Abstract())
    }

    constructor (ram: array<Byte>, context: Context, document: Document)
      requires ram.Length == RAM_SIZE && |context.x| == 32
      ensures Valid() && fresh(permanent) && fresh(watchpoints) && this.ram == ram
      ensures Abstract() == State(ram[..], [DISABLED, DISABLED, DISABLED, DISABLED], DISABLED, NO_SLOT, NO_UNDO,
                                  Snapshot(false, context, [], [], document, [], []), 0,
                                  [UNWATCHED, UNWATCHED, UNWATCHED, UNWATCHED], document, context, Monitor)
    {
      this.ram := ram;
      permanent := new Breakpoint[SLOTS](i => DISABLED);
      watchpoints := new Watchpoint[WATCHES](i => UNWATCHED);
      temporary, stepped, undo, runRemaining := DISABLED, NO_SLOT, NO_UNDO, 0;
      snapshot := Snapshot(false, context, [], [], document, [], []);
      this.document, this.context, control := document, context, Monitor;
    }

    method PermanentBreakpointAt(address: int) returns (r: Option<nat>)
      requires Valid()
      ensures r == PermanentAt(Abstract(), address)
    {
      var slot := 0;
      while slot < SLOTS
        invariant 0 <= slot <= SLOTS
        invariant PermanentAt(Abstract(), address) == SlotFrom(permanent[..], address, slot)
      {
        if permanent[slot].enabled && permanent[slot].address == address { return Some(slot); }
        slot := slot + 1;
      }
      return None;
    }

    method FirstFreeBreakpoint() returns (r: Option<nat>)
      requires Valid()
      ensures r == FreeFrom(permanent[..], 0)
    {
      var slot := 0;
      while slot < SLOTS
        invariant 0 <= slot <= SLOTS
        invariant FreeFrom(permanent[..], 0) == FreeFrom(permanent[..], slot)
      {
        if !permanent[slot].enabled { return Some(slot); }
        slot := slot + 1;
      }
      return None;
    }

    method Load32(address: int) returns (r: Option<Word32>)
      requires Valid()
      ensures r == TargetLoad32(ram[..], address)
    {
      if !ValidWordAddress(address) { return None; }
      var i := address - RAM_START;
      return Some(Compose(ram[i], ram[i + 1], ram[i + 2], ram[i + 3]));
    }

    method Store32(address: int, word: Word32) returns (stored: bool)
      requires Valid()
      modifies ram
      ensures stored == ValidWordAddress(address)
      ensures ram[..] == if stored then StoreWord(old(ram[..]), address, word) else old(ram[..])
    {
      if !ValidWordAddress(address) { return false; }
      var i := address - RAM_START;
      ram[i], ram[i + 1], ram[i + 2], ram[i + 3] := ByteOf(word, 0), ByteOf(word, 1), ByteOf(word, 2), ByteOf(word, 3);
      assert ram[..] == StoreWord(old(ram[..]), address, word);
      return true;
    }

    /** Bytes written one at a time. */
    method WriteBytes(address: int, bytes: seq<Byte>)
      requires ram.Length == RAM_SIZE && RAM_START <= address && address + |bytes| <= RAM_END
      modifies ram
      ensures ram[..] == StoreBytes(old(ram[..]), address, bytes)
    {
      var start := address - RAM_START;
      var offset := 0;
      while offset < |bytes|
        invariant 0 <= offset <= |bytes|
        invariant forall i :: 0 <= i < RAM_SIZE ==>
          ram[i] == if start <= i < start + offset then bytes[i - start] else old(ram[i])
      {
        ram[start + offset] := bytes[offset];
        offset := offset + 1;
      }
      assert ram[..] == StoreBytes(old(ram[..]), address, bytes);
    }

    method Break(address: Word64)
      requires Valid()
      modifies this, ram, permanent
      ensures Valid() && Abstract() == BreakTarget(old(Abstract()), address)
    {
      hide StoreWord, SlotFrom, WordAt;
      if !ValidWordAddress(address) { return; }
      var existing := PermanentBreakpointAt(address);
      if existing.Some? { return; }
      if temporary.enabled && temporary.address == address { return; }
      var originalWord := Load32(address);
      var slot := FirstFreeBreakpoint();
      if slot.None? { return; }
      undo := NO_UNDO;
      var stored := Store32(address, EBREAK_WORD);
      permanent[slot.value] := Breakpoint(address, originalWord.value, true);
    }

    method Delete(number: nat)
      requires Valid()
      modifies this, ram, permanent
      ensures Valid()
      ensures Abstract() == DeleteBreakpoint(old(Abstract()), number)
    {
      hide StoreWord, SlotFrom, WordAt;
      if number == 0 || number > SLOTS { return; }
      var slot := number - 1;
      var breakpoint := permanent[slot];
      if !breakpoint.enabled { return; }
      var word := Load32(breakpoint.address);
      if word != Some(EBREAK_WORD) { return; }
      undo := NO_UNDO;
      var stored := Store32(breakpoint.address, breakpoint.originalWord);
      permanent[slot] := DISABLED;
    }

    method WriteTransaction(address: Word64, edited: seq<Byte>) returns (error: Option<WriteError>)
      requires Valid()
      modifies this, ram
      ensures Valid()
      ensures match WriteMemoryTransaction(old(Abstract()), address, edited)
              case Written(t) => error == None && Abstract() == t
              case Refused(e) => error == Some(e) && Abstract() == old(Abstract())
    {
      hide SlotFrom, StoreBytes;
      var end := address + |edited|;
      if end >= 0x1_0000_0000_0000_0000 { return Some(Overflow); }
      if address < RAM_START || end > RAM_END { return Some(OutsideRam); }
      var offset := 0;
      while offset < |edited|
        modifies {}
        invariant 0 <= offset <= |edited|
        invariant forall a :: address <= a < address + offset ==> !OnBreakpoint(Abstract(), a)
      {
        var byteAddress := address + offset;
        var existing := PermanentBreakpointAt(WordOf(byteAddress));
        if existing.Some? || (temporary.enabled && temporary.address == WordOf(byteAddress)) {
          assert OnBreakpoint(Abstract(), byteAddress);
          return Some(ActiveBreakpoint);
        }
        assert !OnBreakpoint(Abstract(), byteAddress);
        offset := offset + 1;
      }
      var original := ram[address - RAM_START..end - RAM_START];
      WriteBytes(address, edited);
      undo := MemoryUndo(address, original, edited, true);
      return None;
    }

    method Edit(address: Word64, edited: seq<Byte>)
      requires Valid()
      modifies this, ram
      ensures Valid() && Abstract() == EditMemory(old(Abstract()), address, edited)
    {
      if context.mcause != BREAKPOINT_CAUSE { return; }
      var error := WriteTransaction(address, edited);
    }

    method Undo()
      requires Valid()
      modifies this, ram
      ensures Valid() && Abstract() == UndoMemory(old(Abstract()))
    {
      hide StoreBytes;
      if context.mcause != BREAKPOINT_CAUSE { return; }
      var record := undo;
      if !record.valid { return; }
      var start := record.address - RAM_START;
      var offset := 0;
      while offset < |record.edited|
        invariant 0 <= offset <= |record.edited|
        invariant ram[start..start + offset] == record.edited[..offset]
      {
        if ram[start + offset] != record.edited[offset] {
          assert ram[start..start + |record.edited|][offset] != record.edited[offset];
          undo := NO_UNDO;
          return;
        }
        offset := offset + 1;
      }
      WriteBytes(record.address, record.original);
      undo := NO_UNDO;
    }

    method InstallTemporaryBreakpoint(address: Word64) returns (installed: bool)
      requires Valid()
      modifies this, ram
      ensures Valid()
      ensures match InstallTemporary(old(Abstract()), address)
              case Some(t) => installed && Abstract() == t
              case None => !installed && Abstract() == old(Abstract())
    {
      hide StoreWord, SlotFrom, WordAt;
      var existing := PermanentBreakpointAt(address);
      if existing.Some? { return false; }
      var originalWord := Load32(address);
      if originalWord.None? { return false; }
      undo := NO_UNDO;
      var stored := Store32(address, EBREAK_WORD);
      temporary := Breakpoint(address, originalWord.value, true);
      return true;
    }

    method RestoreTemporaryBreakpoint()
      requires Valid()
      modifies this, ram
      ensures Valid() && Abstract() == RestoreTemporary(old(Abstract()))
    {
      hide StoreWord;
      if temporary.enabled {
        var stored := Store32(temporary.address, temporary.originalWord);
        temporary := DISABLED;
      }
    }

    method RestoreSteppedBreakpoint()
      requires Valid()
      modifies this, ram
      ensures Valid() && Abstract() == RestoreStepped(old(Abstract()))
    {
      hide StoreWord, WordAt;
      if stepped == NO_SLOT { return; }
      var breakpoint := permanent[stepped];
      var word := Load32(breakpoint.address);
      if breakpoint.enabled && word == Some(breakpoint.originalWord) {
        var stored := Store32(breakpoint.address, EBREAK_WORD);
      }
      stepped := NO_SLOT;
    }

    method PrepareStep(slot: nat) returns (ready: bool)
      requires Valid() && slot < SLOTS
      modifies this, ram
      ensures Valid() && (Abstract(), ready) == PreparePermanentStep(old(Abstract()), slot)
    {
      hide StoreWord, SlotFrom, WordAt, NextExecutionPc, InstallTemporary, RestoreStepped;
      var breakpoint := permanent[slot];
      if !breakpoint.enabled || breakpoint.originalWord == EBREAK_WORD { return false; }
      var next := NextExecutionPc(context, context.pc, breakpoint.originalWord);
      if next.None? { return false; }
      var stopPc := next.value;
      if stopPc == context.pc || !ValidWordAddress(stopPc) { return false; }
      var stored := Store32(breakpoint.address, breakpoint.originalWord);
      if !stored { return false; }
      stepped := slot;
      var existing := PermanentBreakpointAt(stopPc);
      if existing.None? {
        var installed := InstallTemporaryBreakpoint(stopPc);
        if !installed {
          RestoreSteppedBreakpoint();
          return false;
        }
      }
      context := context.(mepc := context.pc);
      return true;
    }

    method AddWatch(address: Word64, width: Word64, kind: WatchKind)
      requires Valid()
      modifies watchpoints
      ensures Valid() && Abstract() == AddWatchpoint(old(Abstract()), address, width, kind)
    {
      if address + width >= 0x1_0000_0000_0000_0000 { return; }
      if width == 0 || width > 8 || address < RAM_START || address + width > RAM_END { return; }
      var slot := 0;
      while slot < WATCHES
        modifies {}
        invariant 0 <= slot <= WATCHES
        invariant FreeWatch(watchpoints[..], 0) == FreeWatch(watchpoints[..], slot)
      {
        if !watchpoints[slot].enabled { break; }
        slot := slot + 1;
      }
      if slot == WATCHES { return; }
      watchpoints[slot] := Watchpoint(address, width, kind, true);
    }

    method DeleteWatch(number: nat)
      requires Valid()
      modifies watchpoints
      ensures Valid() && Abstract() == DeleteWatchpoint(old(Abstract()), number)
    {
      if number == 0 || number > WATCHES { return; }
      var slot := number - 1;
      if !watchpoints[slot].enabled { return; }
      watchpoints[slot] := UNWATCHED;
    }

    method WatchpointHit(word: Word32) returns (r: Option<nat>)
      requires Valid()
      ensures r == WatchpointForInstruction(context, word, watchpoints[..])
    {
      var access := WatchedAccess(context, word);
      if access.None? { return None; }
      var address := access.value.address;
      if address + 8 >= 0x1_0000_0000_0000_0000 { return None; }
      var slot := 0;
      while slot < WATCHES
        invariant 0 <= slot <= WATCHES
        invariant WatchFrom(watchpoints[..], access.value, 0) == WatchFrom(watchpoints[..], access.value, slot)
      {
        var w := watchpoints[slot];
        if w.enabled {
          if w.address + w.width >= 0x1_0000_0000_0000_0000 { return None; }
          var kindMatches := w.kind == Any || w.kind == access.value.kind;
          if kindMatches && address < w.address + w.width && w.address < address + 8 { return Some(slot); }
        }
        slot := slot + 1;
      }
      return None;
    }

    method SingleStep()
      requires Valid()
      modifies this, ram
      ensures Valid() && Abstract() == ResumeSingleStep(old(Abstract()))
    {
      hide StoreWord, SlotFrom, WordAt, NextExecutionPc, InstallTemporary, PreparePermanentStep, WatchpointForInstruction;
      var pc := context.pc;
      var current := Load32(pc);
      if current.None? { control := Monitor; return; }
      var instructionPc := pc;
      if current.value == EBREAK_WORD {
        var slot := PermanentBreakpointAt(pc);
        if slot.Some? {
          var ready := PrepareStep(slot.value);
          control := if ready then Target else Monitor;
          return;
        }
        instructionPc := pc + 4;
      }
      var word := Load32(instructionPc);
      if word.None? { control := Monitor; return; }
      if word.value == EBREAK_WORD {
        context, control := context.(pc := instructionPc, mepc := instructionPc), Target;
        return;
      }
      var hit := WatchpointHit(word.value);
      if hit.Some? { runRemaining, control := 0, Monitor; return; }
      var stopPc := NextExecutionPc(context, instructionPc, word.value);
      if stopPc.None? { control := Monitor; return; }
      var installed := InstallTemporaryBreakpoint(stopPc.value);
      if !installed { control := Monitor; return; }
      context, control := context.(pc := instructionPc, mepc := instructionPc), Target;
    }

    method Step()
      requires Valid()
      modifies this, ram
      ensures Valid() && Abstract() == StepTarget(old(Abstract()))
    {
      hide ResumeSingleStep;
      if context.mcause != BREAKPOINT_CAUSE { control := Monitor; return; }
      SingleStep();
    }

    method Run(budget: nat)
      requires Valid()
      modifies this, ram
      ensures Valid() && Abstract() == RunTarget(old(Abstract()), budget)
    {
      hide ResumeSingleStep;
      if context.mcause != BREAKPOINT_CAUSE { control := Monitor; return; }
      if budget == 0 || budget > 100_000 { control := Monitor; return; }
      runRemaining := budget;
      SingleStep();
    }

    method Continue()
      requires Valid()
      modifies this, ram
      ensures Valid() && Abstract() == ContinueTarget(old(Abstract()))
    {
      hide SlotFrom, WordAt, PreparePermanentStep;
      if context.mcause != BREAKPOINT_CAUSE { control := Monitor; return; }
      var word := Load32(context.pc);
      if word == Some(EBREAK_WORD) {
        var slot := PermanentBreakpointAt(context.pc);
        if slot.Some? {
          var ready := PrepareStep(slot.value);
          control := if ready then Target else Monitor;
          return;
        }
      }
      if word.None? { control := Monitor; return; }
      var resumePc := if word.value == EBREAK_WORD then context.pc + 4 else context.pc;
      context, control := context.(pc := resumePc, mepc := resumePc), Target;
    }

    method ResumeBehindCall()
      requires Valid()
      modifies this
      ensures Valid() && Abstract() == ResumeAfterCall(old(Abstract()))
    {
      if context.mepc + 4 >= 0x1_0000_0000_0000_0000 { control := Monitor; return; }
      var next: Word64 := context.mepc + 4;
      context, control := context.(pc := next, mepc := next, mcause := BREAKPOINT_CAUSE), Target;
    }

    method HandleEnvironmentCall(input: Byte)
      requires Valid()
      modifies this
      ensures Valid() && Abstract() == EnvironmentCall(old(Abstract()), input)
    {
      var service := ServiceOf(context.x[17]);
      if service == ReadChar || service == PollChar || service == PollBreak {
        context := context.(x := context.x[10 := input]);
        ResumeBehindCall();
      } else if service == WriteChar || (service == WriteBuffer && BufferInRam(context.x[10], context.x[11])) {
        ResumeBehindCall();
      } else if service == Exit {
        context, control := context.(mcause := BREAKPOINT_CAUSE), Monitor;
      } else {
        control := Monitor;
      }
    }

    method OnTrap(mcause: Word64, mepc: Word64, input: Byte)
      requires Valid()
      modifies this, ram
      ensures Valid() && Abstract() == Trap(old(Abstract()), mcause, mepc, input)
    {
      hide SlotFrom, WordAt, ResumeSingleStep, RestoreTemporary, RestoreStepped, EnvironmentCall;
      context := context.(pc := mepc, mepc := mepc, mcause := mcause);
      if IsExternalInterrupt(mcause) { control := Target; return; }
      if mcause == ENVIRONMENT_CALL { HandleEnvironmentCall(input); return; }
      RestoreTemporaryBreakpoint();
      RestoreSteppedBreakpoint();
      var slot := PermanentBreakpointAt(mepc);
      var word := Load32(mepc);
      var budgetStop := mcause == BREAKPOINT_CAUSE && slot.None? && word != Some(EBREAK_WORD);
      if budgetStop {
        var remaining := runRemaining;
        if remaining > 0 {
          runRemaining := remaining - 1;
          if remaining > 1 { SingleStep(); return; }
        }
      } else {
        runRemaining := 0;
      }
      control := Monitor;
    }

    method Save()
      requires Valid()
      modifies this
      ensures Valid() && Abstract() == SaveSnapshot(old(Abstract()))
    {
      hide CaptureSlot;
      if context.mcause != BREAKPOINT_CAUSE { return; }
      var w, d := WORKSPACE_START - RAM_START, DATA_START - RAM_START;
      assert ram[w..w + WORKSPACE_BYTES] == Region(ram[..], WORKSPACE_START, WORKSPACE_BYTES);
      assert ram[d..d + DATA_BYTES] == Region(ram[..], DATA_START, DATA_BYTES);
      var saved := Snapshot(false, context, ram[w..w + WORKSPACE_BYTES], ram[d..d + DATA_BYTES], document,
                            permanent[..], watchpoints[..]);
      ghost var raw := saved;
      assert raw == RawSnapshot(Abstract());
      var slot := 0;
      while slot < SLOTS
        invariant 0 <= slot <= SLOTS
        invariant |saved.workspace| == WORKSPACE_BYTES && |saved.data| == DATA_BYTES && |saved.breakpoints| == SLOTS
        invariant CaptureSlots(permanent[..], 0, raw) == CaptureSlots(permanent[..], slot, saved)
      {
        saved := CaptureSlot(permanent[slot], slot, saved);
        slot := slot + 1;
      }
      snapshot := saved.(valid := true);
    }

    method Restore()
      requires Valid()
      modifies this, ram, permanent, watchpoints
      ensures Valid() && Abstract() == RestoreSnapshot(old(Abstract()))
    {
      hide StoreWord, StoreBytes;
      if !snapshot.valid { return; }
      WriteBytes(WORKSPACE_START, snapshot.workspace);
      WriteBytes(DATA_START, snapshot.data);
      ghost var copied := ram[..];
      ghost var table := snapshot.breakpoints;
      var slot := 0;
      while slot < SLOTS
        modifies ram, permanent
        invariant 0 <= slot <= SLOTS
        invariant permanent[..slot] == table[..slot]
        invariant ArmSlots(copied, table, 0) == ArmSlots(ram[..], table, slot)
      {
        var breakpoint := snapshot.breakpoints[slot];
        permanent[slot] := breakpoint;
        if breakpoint.enabled { var stored := Store32Raw(breakpoint.address, EBREAK_WORD); }
        slot := slot + 1;
      }
      assert permanent[..] == table;
      RestoreWatchpoints();
      temporary, stepped, runRemaining, undo := DISABLED, NO_SLOT, 0, NO_UNDO;
      document, context := snapshot.document, snapshot.context;
    }

    method RestoreWatchpoints()
      requires watchpoints.Length == WATCHES == |snapshot.watchpoints|
      modifies watchpoints
      ensures watchpoints[..] == snapshot.watchpoints
    {
      var slot := 0;
      while slot < WATCHES
        invariant 0 <= slot <= WATCHES
        invariant watchpoints[..slot] == snapshot.watchpoints[..slot]
      {
        watchpoints[slot] := snapshot.watchpoints[slot];
        slot := slot + 1;
      }
      assert watchpoints[..] == snapshot.watchpoints[..];
    }

    method Store32Raw(address: int, word: Word32) returns (stored: bool)
      requires ram.Length == RAM_SIZE
      modifies ram
      ensures stored == ValidWordAddress(address)
      ensures ram[..] == if stored then StoreWord(old(ram[..]), address, word) else old(ram[..])
    {
      if !ValidWordAddress(address) { return false; }
      WriteBytes(address, WordBytes(word));
      return true;
    }
  }
}
