/** What the commands of the guest monitor achieve: which slots are set, where a resumed
    step will stop, and when a trap gives control back. */
module GuestEffects {
  import opened Bytes
  import opened Options
  import opened GuestState
  import opened GuestTransparency
  import opened GuestSnapshots
  import opened GuestRuns
  import opened GuestStepping

  // ---- the slots as the user sees them ----

  /** The address each numbered slot is set on. */
  function SlotsOf(table: seq<Breakpoint>): (r: seq<Option<Word64>>)
    ensures |r| == |table|
    ensures forall i :: 0 <= i < |table| ==> r[i] == if table[i].enabled then Some(table[i].address) else None
  {
    seq<Option<Word64>>(|table|, i requires 0 <= i < |table| => if table[i].enabled then Some(table[i].address) else None)
  }

  function FirstFree(slots: seq<Option<Word64>>): (r: nat)
    ensures r <= |slots| && (r < |slots| ==> slots[r] == None) && forall i :: 0 <= i < r ==> slots[i] != None
  {
    if slots == [] || slots[0] == None then 0 else 1 + FirstFree(slots[1..])
  }

  /** What an event does to the slots, seen from outside: break takes the first free one for a new valid address,
      delete always frees its own, a restore brings the saved ones, and nothing else touches them. */
  function SlotsEffect(slots: seq<Option<Word64>>, s: State, event: Event): seq<Option<Word64>>
  {
    match event
    case Break(address) =>
      if ValidWordAddress(address) && Some(address) !in slots && FirstFree(slots) < |slots|
      then slots[FirstFree(slots) := Some(address)] else slots
    case Delete(number) => if 1 <= number <= |slots| then slots[number - 1 := None] else slots
    case Restore => if s.snapshot.valid then SlotsOf(s.snapshot.breakpoints) else slots
    case _ => slots
  }

  lemma FirstFreeAgrees(table: seq<Breakpoint>)
    ensures FreeFrom(table, 0) == if FirstFree(SlotsOf(table)) < |table| then Some(FirstFree(SlotsOf(table))) else None
  {
    FirstFreeFrom(table, 0);
    assert SlotsOf(table)[0..] == SlotsOf(table);
  }

  lemma {:induction false} FirstFreeFrom(table: seq<Breakpoint>, slot: nat)
    requires slot <= |table|
    ensures FreeFrom(table, slot) ==
            if slot + FirstFree(SlotsOf(table)[slot..]) < |table| then Some(slot + FirstFree(SlotsOf(table)[slot..])) else None
    decreases |table| - slot
  {
    if slot < |table| {
      assert SlotsOf(table)[slot..][1..] == SlotsOf(table)[slot + 1..];
      FirstFreeFrom(table, slot + 1);
    }
  }

  lemma LookupAgrees(table: seq<Breakpoint>, address: Word64)
    ensures SlotFrom(table, address, 0).Some? <==> Some(address) in SlotsOf(table)
  {
    if Some(address) in SlotsOf(table) {
      var i :| 0 <= i < |table| && SlotsOf(table)[i] == Some(address);
      assert table[i].enabled && table[i].address == address;
    }
    if SlotFrom(table, address, 0).Some? {
      assert SlotsOf(table)[SlotFrom(table, address, 0).value] == Some(address);
    }
  }

  lemma BreakSlots(s: State, address: Word64)
    requires Coherent(s) && s.control == Monitor
    ensures SlotsOf(BreakTarget(s, address).permanent) == SlotsEffect(SlotsOf(s.permanent), s, Break(address))
  {
    hide WordAt, SlotsPlanted, TouchesBreakpoint;
    FirstFreeAgrees(s.permanent);
    LookupAgrees(s.permanent, address);
  }

  /** Under the invariant a delete is never refused for finding something else than its EBREAK. */
  lemma DeleteSlots(s: State, number: nat)
    requires Coherent(s) && s.control == Monitor
    ensures SlotsOf(DeleteBreakpoint(s, number).permanent) == SlotsEffect(SlotsOf(s.permanent), s, Delete(number))
  {
    hide WordAt, TouchesBreakpoint;
  }

  lemma ResumeSlots(s: State)
    requires WellFormed(s)
    ensures ResumeSingleStep(s).permanent == s.permanent
  {
    hide WordAt, StoreWord, NextExecutionPc, SlotFrom, WatchpointForInstruction;
  }

  lemma ContinueSlots(s: State)
    requires WellFormed(s)
    ensures ContinueTarget(s).permanent == s.permanent
  {
    hide WordAt, StoreWord, NextExecutionPc, SlotFrom;
  }

  /** One event changes the slots as seen from outside, and only so. */
  lemma EventSlots(s: State, event: Event)
    requires Invariant(s) && Allowed(s, event)
    ensures SlotsOf(Next(s, event).permanent) == SlotsEffect(SlotsOf(s.permanent), s, event)
  {
    hide BreakTarget, DeleteBreakpoint, ResumeSingleStep, ContinueTarget, WordAt, StoreWord, NextExecutionPc, SlotFrom, ArmSlots,
         CaptureSlots, View, SlotsOf, FirstFree, Trap, FreeWatch, StopsInCall;
    match event {
      case Break(address) => BreakSlots(s, address);
      case Delete(number) => DeleteSlots(s, number);
      case Step => ResumeSlots(s);
      case Run(budget) => ResumeSlots(s.(runRemaining := budget));
      case Continue => ContinueSlots(s);
      case TrapTaken(mcause, mepc, input) => TrapSlots(s, mcause, mepc, input);
      case _ =>
    }
  }

  lemma TrapSlots(s: State, mcause: Word64, mepc: Word64, input: Byte)
    requires WellFormed(s)
    ensures Trap(s, mcause, mepc, input).permanent == s.permanent
  {
    hide ResumeSingleStep, WordAt, StoreWord, SlotFrom, EnvironmentCall;
    var entered := Entered(s, mcause, mepc);
    CallOnlyControl(entered, input);
    var t := RestoreStepped(RestoreTemporary(entered));
    if t.runRemaining > 1 { ResumeSlots(t.(runRemaining := t.runRemaining - 1)); }
  }

  function SlotsRun(slots: seq<Option<Word64>>, states: seq<State>, events: seq<Event>, n: nat): seq<Option<Word64>>
    requires n <= |events| < |states|
  {
    if n == 0 then slots else SlotsEffect(SlotsRun(slots, states, events, n - 1), states[n - 1], events[n - 1])
  }

  /** In every run the slots are what break, delete and restore made them. */
  lemma {:induction false} RunSlots(states: seq<State>, events: seq<Event>, n: nat)
    requires IsRun(states, events) && Invariant(states[0]) && n <= |events|
    ensures SlotsOf(states[n].permanent) == SlotsRun(SlotsOf(states[0].permanent), states, events, n)
    decreases n
  {
    hide Invariant, SlotsOf, SlotsEffect, Next, Allowed;
    if n > 0 {
      RunSlots(states, events, n - 1);
      RunIsTransparent(states, events, n - 1);
      EventOfRun(states, events, n - 1);
      EventSlots(states[n - 1], events[n - 1]);
    }
  }

  lemma EventOfRun(states: seq<State>, events: seq<Event>, n: nat)
    requires IsRun(states, events) && n < |events|
    ensures WellFormed(states[n]) && Allowed(states[n], events[n]) && states[n + 1] == Next(states[n], events[n])
  {
    hide WellFormed, Allowed, Next;
  }

  // ---- where a resumed step stops ----

  /** A step that resumes the program has the program's own instruction at the pc it resumes at - unless that
      instruction jumps to itself - and an EBREAK (0x00100073) where the architecture goes from there. The exceptions
      stop at once: an EBREAK of the program's own, and a breakpoint set right behind one that the step skipped. */
  lemma ResumePlants(s: State)
    requires Coherent(s) && Settled(s) && ResumeSingleStep(s).control == Target
    ensures var r := ResumeSingleStep(s);
            var pc := r.context.mepc;
            && ValidWordAddress(pc)
            && (VisibleWord(s, pc) != EBREAK_WORD && (pc == s.context.pc || PermanentAt(s, pc).None?) ==>
                  var next := Successor(s.context, pc, VisibleWord(s, pc));
                  && next.Some? && ValidWordAddress(next.value) && WordAt(r.ram, next.value) == 0x0010_0073
                  && (next.value != pc ==> WordAt(r.ram, pc) == VisibleWord(s, pc)))
  {
    hide WordAt, StoreWord, NextExecutionPc, Successor, SlotFrom, TouchesBreakpoint, View, WatchpointForInstruction;
    var pc := s.context.pc;
    if TargetLoad32(s.ram, pc) == Some(EBREAK_WORD) && PermanentAt(s, pc).Some? {
      PreparedPlants(s, PermanentAt(s, pc).value);
    } else if TargetLoad32(s.ram, pc).Some? {
      var start: Word64 := if WordAt(s.ram, pc) == EBREAK_WORD then pc + 4 else pc;
      if TargetLoad32(s.ram, start) != Some(EBREAK_WORD) { PlainStepPlants(s, start); }
    }
  }

  /** Stepping over a permanent breakpoint. */
  lemma PreparedPlants(s: State, slot: nat)
    requires Coherent(s) && Settled(s) && slot < SLOTS && s.permanent[slot].address == s.context.pc
    ensures var (r, ready) := PreparePermanentStep(s, slot);
            ready ==>
              var b := s.permanent[slot];
              var next := Successor(s.context, b.address, b.originalWord);
              && ValidWordAddress(b.address) && VisibleWord(s, b.address) == b.originalWord && r.context.mepc == b.address
              && next.Some? && ValidWordAddress(next.value) && next.value != b.address
              && WordAt(r.ram, next.value) == EBREAK_WORD && WordAt(r.ram, b.address) == b.originalWord
  {
    hide WordAt, StoreWord, NextExecutionPc, Successor, TouchesBreakpoint, View;
    var (r, ready) := PreparePermanentStep(s, slot);
    if ready {
      StopIsSuccessor(s.context, s.context.pc, s.permanent[slot].originalWord);
      var b := s.permanent[slot];
      var next := NextExecutionPc(s.context, b.address, b.originalWord).value;
      SlotIsUnique(s.permanent, slot);
      var lifted := StoreWord(s.ram, b.address, b.originalWord);
      StoreWordEffect(s.ram, b.address, b.originalWord, b.address);
      StoreWordEffect(s.ram, b.address, b.originalWord, next);
      StoreWordEffect(lifted, next, EBREAK_WORD, next);
      StoreWordEffect(lifted, next, EBREAK_WORD, b.address);
    }
  }

  /** Stepping where the monitor has planted nothing. */
  lemma PlainStepPlants(s: State, start: Word64)
    requires Coherent(s) && Settled(s) && ValidWordAddress(start) && WordAt(s.ram, start) != EBREAK_WORD
    ensures VisibleWord(s, start) == WordAt(s.ram, start)
    ensures NextExecutionPc(s.context, start, WordAt(s.ram, start)) == Successor(s.context, start, WordAt(s.ram, start))
    ensures var next := Successor(s.context, start, WordAt(s.ram, start));
            next.Some? && InstallTemporary(s, next.value).Some? ==>
              var r := InstallTemporary(s, next.value).value;
              && ValidWordAddress(next.value) && WordAt(r.ram, next.value) == EBREAK_WORD
              && (next.value != start ==> WordAt(r.ram, start) == WordAt(s.ram, start))
  {
    hide WordAt, StoreWord, NextExecutionPc, Successor, TouchesBreakpoint, View;
    StopIsSuccessor(s.context, start, WordAt(s.ram, start));
    var next := Successor(s.context, start, WordAt(s.ram, start));
    if next.Some? && ValidWordAddress(next.value) {
      StoreWordEffect(s.ram, next.value, EBREAK_WORD, next.value);
      StoreWordEffect(s.ram, next.value, EBREAK_WORD, start);
    }
  }

  // ---- when a step, a run or continue resumes the program ----

  /** Over a permanent breakpoint at pc the step must go somewhere else in RAM, from an instruction that is no EBREAK. */
  predicate CanStepOver(s: State, slot: nat)
    requires WellFormed(s) && slot < SLOTS
  {
    var word := s.permanent[slot].originalWord;
    var next := Successor(s.context, s.context.pc, word);
    word != EBREAK_WORD && next.Some? && next.value != s.context.pc && ValidWordAddress(next.value)
  }

  /** Elsewhere it starts behind an EBREAK of the program's own at pc. It runs into another EBREAK there, or it needs a
      successor in RAM without a permanent breakpoint, and no watchpoint that is touched. */
  predicate CanStepPlainly(s: State)
    requires WellFormed(s) && ValidWordAddress(s.context.pc)
  {
    var start := if WordAt(s.ram, s.context.pc) == EBREAK_WORD then s.context.pc + 4 else s.context.pc;
    && ValidWordAddress(start)
    && (WordAt(s.ram, start) == EBREAK_WORD
        || var next := Successor(s.context, start, WordAt(s.ram, start));
           && WatchpointForInstruction(s.context, WordAt(s.ram, start), s.watchpoints).None?
           && next.Some? && ValidWordAddress(next.value) && PermanentAt(s, next.value).None?)
  }

  predicate CanStep(s: State)
    requires WellFormed(s)
  {
    ValidWordAddress(s.context.pc)
    && match PermanentAt(s, s.context.pc)
       case Some(slot) => CanStepOver(s, slot)
       case None => CanStepPlainly(s)
  }

  lemma OverResumes(s: State, slot: nat)
    requires Coherent(s) && Settled(s) && slot < SLOTS && s.permanent[slot].enabled && s.permanent[slot].address == s.context.pc
    ensures PreparePermanentStep(s, slot).1 <==> CanStepOver(s, slot)
    ensures PreparePermanentStep(s, slot).0.runRemaining == s.runRemaining
  {
    hide WordAt, StoreWord, NextExecutionPc, Successor, TouchesBreakpoint, View, SlotsPlanted;
    StopIsSuccessor(s.context, s.context.pc, s.permanent[slot].originalWord);
  }

  /** A step resumes the program if and only if it can, and spends nothing of the budget itself; what stays in the
      monitor changes nothing, but that a touched watchpoint ends the run. */
  lemma StepResumesIff(s: State)
    requires Coherent(s) && Settled(s)
    ensures var r := ResumeSingleStep(s);
            && (r.control == Target <==> CanStep(s))
            && (CanStep(s) ==> r.runRemaining == s.runRemaining)
            && (!CanStep(s) ==> r == s.(control := Monitor, runRemaining := r.runRemaining) && r.runRemaining <= s.runRemaining)
  {
    hide WordAt, StoreWord, NextExecutionPc, Successor, TouchesBreakpoint, View, WatchpointForInstruction, PreparePermanentStep,
         CanStepOver;
    var pc := s.context.pc;
    if ValidWordAddress(pc) {
      if PermanentAt(s, pc).Some? {
        OverResumes(s, PermanentAt(s, pc).value);
        PrepareKeepsView(s, PermanentAt(s, pc).value);
      } else {
        var start: Word64 := if WordAt(s.ram, pc) == EBREAK_WORD then pc + 4 else pc;
        if ValidWordAddress(start) { StopIsSuccessor(s.context, start, WordAt(s.ram, start)); }
      }
    }
  }

  /** A run of 1 to 100000 steps asked for after a breakpoint stop starts with its first step, if that can be taken, and the
      whole budget; a single step is taken only after such a stop, too; any other request changes nothing. */
  lemma RunStarts(s: State, budget: nat)
    requires Coherent(s) && Settled(s)
    ensures var r, stopped := RunTarget(s, budget), s.context.mcause == 3;
            && (r.control == Target <==> stopped && 1 <= budget <= 100_000 && CanStep(s))
            && (r.control == Target ==> r.runRemaining == budget && r.(runRemaining := s.runRemaining) == StepTarget(s))
            && (!stopped || budget == 0 || budget > 100_000 ==> r == s.(control := Monitor))
            && StepTarget(s) == if stopped then ResumeSingleStep(s) else s.(control := Monitor)
  {
    hide ResumeSingleStep, CanStep, Coherent, Settled;
    BudgetIsCarried(s, budget);
    StepResumesIff(s);
    StepResumesIff(s.(runRemaining := budget));
  }

  /** A step does the same under any budget. */
  lemma BudgetIsCarried(s: State, budget: nat)
    requires Coherent(s) && Settled(s)
    ensures var t := s.(runRemaining := budget);
            && Coherent(t) && Settled(t) && (CanStep(t) <==> CanStep(s))
            && (CanStep(s) ==> ResumeSingleStep(t) == ResumeSingleStep(s).(runRemaining := budget))
  {
    hide Settled, CanStep, ResumeSingleStep, SlotsOk, SlotsPlanted, TouchesBreakpoint;
    SameUnderBudget(s, budget);
    ResumesAlike(s, budget);
    if CanStep(s) { StepResumesIff(s); }
  }

  lemma SameUnderBudget(s: State, budget: nat)
    requires Coherent(s) && Settled(s)
    ensures var t := s.(runRemaining := budget); Coherent(t) && Settled(t) && (CanStep(t) <==> CanStep(s))
  {
    hide WordAt, StoreWord, NextExecutionPc, Successor, View, WatchpointForInstruction;
    var t := s.(runRemaining := budget);
    assert forall a :: OnBreakpoint(t, a) == OnBreakpoint(s, a);
  }

  lemma InstallAlike(s: State, budget: nat, address: Word64)
    requires WellFormed(s)
    ensures InstallTemporary(s.(runRemaining := budget), address) ==
            match InstallTemporary(s, address) case None => None case Some(t) => Some(t.(runRemaining := budget))
  {
    hide WordAt, StoreWord, SlotFrom;
  }

  lemma PrepareAlike(s: State, budget: nat, slot: nat)
    requires WellFormed(s) && slot < SLOTS
    ensures var (t, ready) := PreparePermanentStep(s, slot);
            PreparePermanentStep(s.(runRemaining := budget), slot) == (t.(runRemaining := budget), ready)
  {
    hide WordAt, StoreWord, SlotFrom, NextExecutionPc, InstallTemporary;
    var breakpoint := s.permanent[slot];
    if ValidWordAddress(breakpoint.address) {
      var t := s.(ram := StoreWord(s.ram, breakpoint.address, breakpoint.originalWord), stepped := slot);
      var next := NextExecutionPc(s.context, s.context.pc, breakpoint.originalWord);
      if next.Some? { InstallAlike(t, budget, next.value); }
    }
  }

  /** Only a touched watchpoint makes a difference: it ends the run. */
  lemma ResumesAlike(s: State, budget: nat)
    requires WellFormed(s)
    ensures ResumeSingleStep(s).control == Target ==>
              ResumeSingleStep(s.(runRemaining := budget)) == ResumeSingleStep(s).(runRemaining := budget)
  {
    hide WordAt, StoreWord, SlotFrom, NextExecutionPc, WatchpointForInstruction, InstallTemporary, PreparePermanentStep;
    var pc := s.context.pc;
    var slot := PermanentAt(s, pc);
    if slot.Some? && slot.value < SLOTS { PrepareAlike(s, budget, slot.value); }
    if ValidWordAddress(pc) {
      var start: int := if WordAt(s.ram, pc) == EBREAK_WORD then pc + 4 else pc;
      if ValidWordAddress(start) {
        var next := NextExecutionPc(s.context, start, WordAt(s.ram, start));
        if next.Some? { InstallAlike(s, budget, next.value); }
      }
    }
  }

  /** Continue resumes behind an EBREAK of the program's own at pc, at pc itself anywhere else in RAM, and over a permanent
      breakpoint with its slot lifted; nothing else changes but what that plants. */
  lemma ContinueResumes(s: State)
    requires Coherent(s) && Settled(s) && s.context.mcause == BREAKPOINT_CAUSE
    ensures var r, pc := ContinueTarget(s), s.context.pc;
            if !ValidWordAddress(pc) then r == s.(control := Monitor)
            else if PermanentAt(s, pc).None? then
              var resume: int := if VisibleWord(s, pc) == EBREAK_WORD then pc + 4 else pc;
              OnlyControl(s, r) && r.control == Target && r.context == s.context.(pc := r.context.pc, mepc := r.context.pc)
              && r.context.pc == resume
            else
              var slot := PermanentAt(s, pc).value;
              && (r.control == Target <==> CanStepOver(s, slot))
              && (r.control == Target ==>
                    && r.stepped == slot && r.context == s.context.(mepc := pc) && WordAt(r.ram, pc) == VisibleWord(s, pc)
                    && WordAt(r.ram, Successor(s.context, pc, VisibleWord(s, pc)).value) == EBREAK_WORD)
              && (r.control == Monitor ==> r == s.(control := Monitor))
  {
    hide WordAt, StoreWord, NextExecutionPc, TouchesBreakpoint, View, PreparePermanentStep, Successor;
    var pc := s.context.pc;
    if ValidWordAddress(pc) && PermanentAt(s, pc).Some? {
      var slot := PermanentAt(s, pc).value;
      OverResumes(s, slot);
      PreparedPlants(s, slot);
      PrepareKeepsView(s, slot);
      PreparedContext(s, slot);
    }
  }

  lemma PreparedContext(s: State, slot: nat)
    requires WellFormed(s) && slot < SLOTS
    ensures var (r, ready) := PreparePermanentStep(s, slot);
            ready ==> r.stepped == slot && r.context == s.context.(mepc := s.context.pc)
  {
    hide WordAt, StoreWord, NextExecutionPc, SlotFrom;
  }

  // ---- when a trap gives control back ----

  /** The state a stop leaves behind before anything resumes: nothing planted, stopped at the trapping pc. */
  function Stopped(s: State, mcause: Word64, mepc: Word64): (r: State)
    requires WellFormed(s)
    ensures WellFormed(r)
  {
    RestoreStepped(RestoreTemporary(Entered(s, mcause, mepc)))
  }

  lemma StoppedIsSettled(s: State, mcause: Word64, mepc: Word64)
    requires Coherent(s) && s.control == Target
    ensures var t := Stopped(s, mcause, mepc);
            && Coherent(t) && Settled(t) && View(t) == View(s) && t.runRemaining == s.runRemaining
            && t.permanent == s.permanent && t.context == s.context.(pc := mepc, mepc := mepc, mcause := mcause)
  {
    hide View, SlotsPlanted, TouchesBreakpoint, WordAt, SlotsOk, StoreWord, RestoreTemporary, RestoreStepped;
    var entered := Entered(s, mcause, mepc);
    ControlOnly(s, entered);
    RestoreTemporaryKeepsView(entered);
    RestoresKeepRest(entered);
    RestoresKeepSlots(entered);
    var u := RestoreTemporary(entered);
    RestoreSteppedKeepsView(u);
    RestoresKeepRest(u);
    RestoresKeepSlots(u);
  }

  lemma RestoresKeepSlots(s: State)
    requires WellFormed(s)
    ensures RestoreTemporary(s).permanent == s.permanent && RestoreTemporary(s).runRemaining == s.runRemaining
    ensures RestoreStepped(s).permanent == s.permanent && RestoreStepped(s).runRemaining == s.runRemaining
  {
    hide StoreWord, WordAt;
  }

  /** The end of a step: a breakpoint trap where neither a breakpoint of the user's nor an EBREAK of the program's stands. */
  predicate EndsStep(s: State, mcause: Word64, mepc: Word64)
    requires WellFormed(s)
  {
    mcause == BREAKPOINT_CAUSE && PermanentAt(s, mepc).None? && (ValidWordAddress(mepc) ==> VisibleWord(s, mepc) != EBREAK_WORD)
  }

  /** A run goes on after a step that was not its last if and only if the next step can be taken, and then exactly one
      step of the budget is spent; anything else than the end of a step ends the run. */
  lemma RunGoesOn(s: State, mcause: Word64, mepc: Word64, input: Byte)
    requires Coherent(s) && s.control == Target && mcause != 0x8000_0000_0000_000b && mcause != 8
    ensures var r, t := Trap(s, mcause, mepc, input), Stopped(s, mcause, mepc);
            if EndsStep(s, mcause, mepc) then
              && (r.control == Target <==> s.runRemaining > 1 && CanStep(t))
              && (r.control == Target ==> r.runRemaining == s.runRemaining - 1 && r.context.mcause == BREAKPOINT_CAUSE)
              && (r.control == Monitor ==> r == t.(control := Monitor, runRemaining := r.runRemaining)
                                           && (s.runRemaining <= 1 ==> r.runRemaining == 0))
            else r == t.(control := Monitor, runRemaining := 0)
  {
    hide View, SlotsPlanted, TouchesBreakpoint, WordAt, SlotsOk, StoreWord, RestoreTemporary, RestoreStepped, ResumeSingleStep,
         CanStepOver, CanStepPlainly, SlotFrom;
    var t := Stopped(s, mcause, mepc);
    StoppedIsSettled(s, mcause, mepc);
    if ValidWordAddress(mepc) {
      ViewWord(s, mepc);
      ViewWord(t, mepc);
    }
    if t.runRemaining > 1 {
      var next := t.(runRemaining := t.runRemaining - 1);
      ControlOnly(t, next);
      StepResumesIff(next);
      SameStep(t, next);
      ResumeKeepsCause(next);
    }
  }

  lemma SameStep(s: State, t: State)
    requires WellFormed(s) && t == s.(runRemaining := t.runRemaining)
    ensures CanStep(t) == CanStep(s)
  {
    hide WordAt, Successor, WatchpointForInstruction;
  }

  lemma ResumeKeepsCause(s: State)
    requires WellFormed(s)
    ensures ResumeSingleStep(s).context.mcause == s.context.mcause
  {
    hide WordAt, StoreWord, NextExecutionPc, SlotFrom, WatchpointForInstruction;
  }

  /** The calls that stop: exit (3), no service of 1 to 6, a buffer (4) longer than 4096 bytes or not in RAM, and a pc too
      high to resume behind. */
  predicate CallStopsAt(x: seq<Word64>, mepc: Word64)
    requires |x| == 32
  {
    || x[17] == 3 || x[17] == 0 || x[17] > 6
    || (x[17] == 4 && (x[11] > 4096 || x[10] < 0x8000_0000 || x[10] > 0x8400_0000 - x[11]))
    || mepc >= 0xffff_ffff_ffff_fffc
  }

  lemma CallStopsIff(s: State, mepc: Word64)
    requires |s.context.x| == 32
    ensures StopsInCall(s, ENVIRONMENT_CALL, mepc) <==> CallStopsAt(s.context.x, mepc)
  {
  }

  /** What a trap does with control. An external interrupt (code 11) always resumes where it struck, and a service (call
      cause 8) resumes behind its call, with everything planted, and the run's budget, as it was; reading (2) and the two
      polls (5, 6) give a character. A call that stops leaves everything planted too. Any other cause resumes the program
      only for a budgeted run that has steps left, and then with fewer of them: a breakpoint of the user's, an EBREAK of
      the program's and every other cause stop in the monitor at the trapping pc. */
  lemma TrapStops(s: State, mcause: Word64, mepc: Word64, input: Byte)
    requires Coherent(s) && s.control == Target
    ensures var r, x := Trap(s, mcause, mepc, input), s.context.x;
            if mcause == 0x8000_0000_0000_000b then
              OnlyControl(s, r) && r.control == Target && r.context == Context(x, mepc, mepc, mcause)
            else if mcause == 8 then
              var stops := CallStopsAt(x, mepc);
              var next: int := if stops then mepc else mepc + 4;
              && OnlyControl(s, r) && (r.control == Monitor <==> stops)
              && |r.context.x| == 32 && (forall i :: 0 <= i < 32 && i != 10 ==> r.context.x[i] == x[i])
              && r.context.x[10] == (if x[17] in {2, 5, 6} then input else x[10])
              && r.context.pc == r.context.mepc == next && r.context.mcause == (if !stops || x[17] == 3 then 3 else 8)
            else
              && (r.control == Target ==> mcause == 3 && PermanentAt(s, mepc).None? && r.runRemaining < s.runRemaining)
              && (mcause != 3 || PermanentAt(s, mepc).Some? || s.runRemaining <= 1 ==> r.control == Monitor && r.context.pc == mepc)
  {
    hide WordAt, StoreWord, NextExecutionPc, SlotFrom, TouchesBreakpoint, View, SlotsPlanted, ResumeSingleStep;
    CallStopsIff(s, mepc);
    if !IsExternalInterrupt(mcause) && mcause != ENVIRONMENT_CALL {
      var t := RestoreStepped(RestoreTemporary(Entered(s, mcause, mepc)));
      if t.runRemaining > 1 { ResumeBudget(t.(runRemaining := t.runRemaining - 1)); }
    }
  }

  lemma ResumeBudget(s: State)
    requires WellFormed(s)
    ensures ResumeSingleStep(s).runRemaining <= s.runRemaining
  {
    hide WordAt, StoreWord, NextExecutionPc, SlotFrom, WatchpointForInstruction;
  }

  // ---- a step in flight ----

  /** The program's stores, interrupts, and calls to services: what can happen before a step ends. */
  predicate InFlight(s: State, event: Event)
    requires |s.context.x| == 32
  {
    event.Stores?
    || (event.TrapTaken? && (IsExternalInterrupt(event.mcause)
          || (event.mcause == ENVIRONMENT_CALL && !StopsInCall(s, event.mcause, event.mepc))))
  }

  lemma InFlightKeeps(s: State, event: Event)
    requires Coherent(s) && Allowed(s, event) && s.control == Target && InFlight(s, event)
    ensures var r := Next(s, event);
            && Coherent(r) && r.control == Target && r.temporary == s.temporary && r.stepped == s.stepped
            && r.permanent == s.permanent && r.runRemaining == s.runRemaining
  {
    hide View, Trap, StopsInCall, SlotsPlanted, TouchesBreakpoint, WordAt, SlotsOk, ApplyStores;
    match event {
      case Stores(writes, after) => StoresReachView(s, writes, after);
      case TrapTaken(mcause, mepc, input) =>
        TrapStops(s, mcause, mepc, input);
        CallStopsIff(s, mepc);
        TrapKeepsView(s, mcause, mepc, input);
    }
  }

  /** However the program stores, is interrupted, or calls services, in any order and number, a step in flight stays
      in flight: the same words stay armed with EBREAK, the same slot stays lifted, no step of the budget is spent. */
  lemma {:induction false} StepStaysInFlight(states: seq<State>, events: seq<Event>, n: nat)
    requires IsRun(states, events) && Coherent(states[0]) && states[0].control == Target && n <= |events|
    requires forall i :: 0 <= i < n ==> InFlight(states[i], events[i])
    ensures Coherent(states[n]) && states[n].control == Target
    ensures states[n].temporary == states[0].temporary && states[n].stepped == states[0].stepped
    ensures states[n].permanent == states[0].permanent && states[n].runRemaining == states[0].runRemaining
    ensures states[n].temporary.enabled ==> TargetLoad32(states[n].ram, states[n].temporary.address) == Some(EBREAK_WORD)
    decreases n
  {
    hide View, Next, Allowed, InFlight, SlotsPlanted, TouchesBreakpoint, WordAt, SlotsOk;
    if n > 0 {
      StepStaysInFlight(states, events, n - 1);
      EventOfRun(states, events, n - 1);
      InFlightKeeps(states[n - 1], events[n - 1]);
    }
  }
}
