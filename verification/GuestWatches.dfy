/** The watchpoints of the guest monitor: a step is held back exactly when the doubleword it loads
    or stores touches a byte under a watchpoint of its kind. */
module GuestWatches {
  import opened Bytes
  import opened Options
  import opened Powers
  import opened GuestState
  import opened GuestTransparency
  import opened GuestSnapshots
  import opened GuestRuns
  import opened GuestEffects
  import opened GuestStepping
  import Isa

  // ---- what a watched instruction accesses ----

  /** The offset of a store: imm[11:5] in bits 31 to 25, imm[4:0] in bits 11 to 7. */
  function StoreOffset(word: Word32): int
  {
    var field := word / 0x200_0000 * 32 + word / 0x80 % 32;
    if field >= 0x800 then field - 0x1000 else field
  }

  /** LD reads, and SD writes, the doubleword at rs1 plus the offset; no other instruction is watched. */
  function DoublewordAccess(context: Context, word: Word32): Option<Access>
    requires |context.x| == 32
  {
    var base := context.x[word / 0x8000 % 32];
    if word / 0x1000 % 8 != 3 then None
    else if word % 128 == 0x03 then Some(Access(Read, Offset(base, ShortImmediate(word))))
    else if word % 128 == 0x23 then Some(Access(Write, Offset(base, StoreOffset(word))))
    else None
  }

  lemma AccessIsDoubleword(context: Context, word: Word32)
    requires |context.x| == 32
    ensures WatchedAccess(context, word) == DoublewordAccess(context, word)
  {
    hide Pow2, SignExtend, ShortImmediate, StoreOffset, WrapAdd, Offset, Isa.Signed;
    ShortField(word);
    StoreField(word);
    SignedOffset(context.x[word / 0x8000 % 32], word / 0x10_0000, 12);
    SignedOffset(context.x[word / 0x8000 % 32], word / 0x200_0000 * 32 + word / 0x80 % 32, 12);
  }

  lemma StoreField(word: Word32)
    ensures word / 0x200_0000 % 0x80 == word / 0x200_0000
    ensures var field := word / 0x200_0000 * 32 + word / 0x80 % 32;
            field < Pow2(12) && Isa.Signed(field, 12) == StoreOffset(word)
  {
    hide Pow2;
    SmallPowers();
    Pow2Single();
  }

  /** Every watchpoint covers one to eight bytes of RAM. */
  predicate WatchesOk(table: seq<Watchpoint>)
  {
    forall i :: 0 <= i < |table| && table[i].enabled ==>
      1 <= table[i].width <= 8 && RAM_START <= table[i].address && table[i].address + table[i].width <= RAM_END
  }

  predicate Covers(w: Watchpoint, byteAddress: int)
  {
    w.enabled && w.address <= byteAddress < w.address + w.width
  }

  predicate Fits(w: Watchpoint, kind: WatchKind)
  {
    w.kind == Any || w.kind == kind
  }

  /** Some byte of the access is under a watchpoint that fits it. */
  ghost predicate Touches(table: seq<Watchpoint>, slot: nat, access: Access)
  {
    exists i, a :: slot <= i < |table| && Fits(table[i], access.kind) && access.address <= a < access.address + 8 && Covers(table[i], a)
  }

  lemma Overlap(w: Watchpoint, address: Word64)
    requires w.enabled && w.width >= 1
    ensures (address < w.address + w.width && w.address < address + 8)
       <==> exists a :: address <= a < address + 8 && Covers(w, a)
  {
    var a := if address < w.address then w.address else address;
    if address < w.address + w.width && w.address < address + 8 { assert Covers(w, a); }
  }

  lemma {:induction false} SearchFindsTouch(table: seq<Watchpoint>, access: Access, slot: nat)
    requires WatchesOk(table) && slot <= |table|
    ensures WatchFrom(table, access, slot).Some? <==> Touches(table, slot, access)
    decreases |table| - slot
  {
    hide Covers;
    if slot < |table| {
      SearchFindsTouch(table, access, slot + 1);
      var w := table[slot];
      if w.enabled { Overlap(w, access.address); } else { Uncovered(w); }
      assert Touches(table, slot, access) <==>
        (Touches(table, slot + 1, access)
         || (Fits(w, access.kind) && exists a :: access.address <= a < access.address + 8 && Covers(w, a))) by {
        SplitTouch(table, access, slot);
      }
    }
  }

  lemma Uncovered(w: Watchpoint)
    requires !w.enabled
    ensures forall a :: !Covers(w, a)
  {
  }

  lemma SplitTouch(table: seq<Watchpoint>, access: Access, slot: nat)
    requires slot < |table|
    ensures Touches(table, slot, access) <==>
            (Touches(table, slot + 1, access)
             || (Fits(table[slot], access.kind) && exists a :: access.address <= a < access.address + 8 && Covers(table[slot], a)))
  {
    hide Covers, Fits;
  }

  /** An instruction is held back if and only if it is a doubleword load or store that touches a fitting watchpoint:
      the search's early end never hides one, because no access that reaches RAM overflows. */
  lemma WatchHitIff(context: Context, word: Word32, table: seq<Watchpoint>)
    requires |context.x| == 32 && WatchesOk(table)
    ensures WatchpointForInstruction(context, word, table).Some?
       <==> DoublewordAccess(context, word).Some? && Touches(table, 0, DoublewordAccess(context, word).value)
  {
    hide WatchedAccess, DoublewordAccess, WatchFrom, Fits;
    AccessIsDoubleword(context, word);
    if WatchedAccess(context, word).Some? {
      var access := WatchedAccess(context, word).value;
      SearchFindsTouch(table, access, 0);
    }
  }

  // ---- setting and deleting ----

  /** A watchpoint is set, exactly as asked for, in the first free place if its range is one to eight bytes of RAM and a
      place is free; otherwise nothing changes. */
  lemma WatchTakesEffect(s: State, address: Word64, width: Word64, kind: WatchKind)
    requires WellFormed(s)
    ensures var r := AddWatchpoint(s, address, width, kind);
            var accepted := 1 <= width <= 8 && RAM_START <= address && address + width <= RAM_END;
            if accepted && exists i :: 0 <= i < WATCHES && !s.watchpoints[i].enabled then
              exists i :: 0 <= i < WATCHES && !s.watchpoints[i].enabled && (forall j :: 0 <= j < i ==> s.watchpoints[j].enabled)
                && r == s.(watchpoints := s.watchpoints[i := Watchpoint(address, width, kind, true)])
            else r == s
  {
    var free := FreeWatch(s.watchpoints, 0);
    if free.Some? {
      FirstFreeWatch(s.watchpoints, 0);
      assert !s.watchpoints[free.value].enabled;
    }
  }

  lemma {:induction false} FirstFreeWatch(table: seq<Watchpoint>, slot: nat)
    requires slot <= |table| && FreeWatch(table, slot).Some?
    ensures forall j :: slot <= j < FreeWatch(table, slot).value ==> table[j].enabled
    decreases |table| - slot
  {
    if table[slot].enabled { FirstFreeWatch(table, slot + 1); }
  }

  /** Deleting a set watchpoint by its number frees its place, and only it. */
  lemma DeleteTakesEffect(s: State, number: nat)
    requires WellFormed(s)
    ensures var r := DeleteWatchpoint(s, number);
            && r == s.(watchpoints := r.watchpoints)
            && (1 <= number <= WATCHES ==> !r.watchpoints[number - 1].enabled)
            && (forall i :: 0 <= i < WATCHES && i + 1 != number ==> r.watchpoints[i] == s.watchpoints[i])
  {
  }

  // ---- every table that commands can make is in order ----

  predicate Watched(s: State)
  {
    WatchesOk(s.watchpoints) && (s.snapshot.valid ==> WatchesOk(s.snapshot.watchpoints))
  }

  predicate SameWatches(s: State, r: State)
  {
    r.watchpoints == s.watchpoints && r.snapshot == s.snapshot
  }

  lemma ResumeSameWatches(s: State)
    requires WellFormed(s)
    ensures SameWatches(s, ResumeSingleStep(s))
  {
    hide WordAt, StoreWord, NextExecutionPc, SlotFrom, WatchpointForInstruction;
  }

  lemma ContinueSameWatches(s: State)
    requires WellFormed(s)
    ensures SameWatches(s, ContinueTarget(s))
  {
    hide WordAt, StoreWord, NextExecutionPc, SlotFrom;
  }

  lemma TrapSameWatches(s: State, mcause: Word64, mepc: Word64, input: Byte)
    requires WellFormed(s)
    ensures SameWatches(s, Trap(s, mcause, mepc, input))
  {
    hide ResumeSingleStep, WordAt, StoreWord, SlotFrom, EnvironmentCall;
    var entered := Entered(s, mcause, mepc);
    CallOnlyControl(entered, input);
    var t := RestoreStepped(RestoreTemporary(entered));
    if t.runRemaining > 1 { ResumeSameWatches(t.(runRemaining := t.runRemaining - 1)); }
  }

  lemma EventKeepsWatches(s: State, event: Event)
    requires WellFormed(s) && Allowed(s, event) && Watched(s)
    ensures Watched(Next(s, event))
  {
    hide ResumeSingleStep, ContinueTarget, Trap, WordAt, StoreWord, StoreBytes, NextExecutionPc, SlotFrom, FreeFrom, ArmSlots,
         CaptureSlot, StopsInCall, ApplyStores;
    match event {
      case Step => ResumeSameWatches(s);
      case Run(budget) => ResumeSameWatches(s.(runRemaining := budget));
      case Continue => ContinueSameWatches(s);
      case TrapTaken(mcause, mepc, input) => TrapSameWatches(s, mcause, mepc, input);
      case _ =>
    }
  }

  /** In every run the table in use and the saved one stay in order, so that watchpoints hold back exactly the steps
      they should. */
  lemma {:induction false} RunKeepsWatches(states: seq<State>, events: seq<Event>, n: nat)
    requires IsRun(states, events) && WellFormed(states[0]) && Watched(states[0]) && n <= |events|
    ensures Watched(states[n])
    decreases n
  {
    hide Watched, Next, Allowed, WellFormed;
    if n > 0 {
      RunKeepsWatches(states, events, n - 1);
      EventOfRun(states, events, n - 1);
      EventKeepsWatches(states[n - 1], events[n - 1]);
    }
  }

  /** A step at an instruction with nothing planted stops at once - the program does not move, and a budgeted run
      ends - if the instruction touches a fitting watchpoint. */
  lemma WatchedStepStops(s: State)
    requires Coherent(s) && Settled(s) && Watched(s) && s.context.mcause == BREAKPOINT_CAUSE
    requires var pc := s.context.pc;
             && ValidWordAddress(pc) && WordAt(s.ram, pc) != EBREAK_WORD
             && DoublewordAccess(s.context, WordAt(s.ram, pc)).Some?
             && Touches(s.watchpoints, 0, DoublewordAccess(s.context, WordAt(s.ram, pc)).value)
    ensures StepTarget(s) == s.(control := Monitor, runRemaining := 0)
  {
    hide WordAt, StoreWord, NextExecutionPc, SlotFrom, WatchpointForInstruction, View, TouchesBreakpoint, DoublewordAccess, Touches;
    WatchHitIff(s.context, WordAt(s.ram, s.context.pc), s.watchpoints);
  }
}
