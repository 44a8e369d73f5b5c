/** Runs of the guest monitor: any sequence of commands, resumptions, stores by
    the program and traps. */
module GuestRuns {
  import opened Bytes
  import opened Options
  import opened GuestState
  import opened GuestTransparency
  import opened GuestSnapshots

  datatype Event =
    | Break(address: Word64)
    | Delete(number: nat)
    | Edit(at: Word64, bytes: seq<Byte>)
    | Undo
    | Step
    | Run(budget: nat)
    | Continue
    | Save
    | Restore
    | Watch(watched: Word64, width: Word64, kind: WatchKind)
    | DeleteWatch(watchNumber: nat)
    | Rewrite(text: Document)
    | Stores(writes: map<int, Byte>, after: Context)
    | TrapTaken(mcause: Word64, mepc: Word64, input: Byte)

  /** Memory with the program's stores carried out. */
  function ApplyStores(memory: seq<Byte>, writes: map<int, Byte>): (r: seq<Byte>)
    requires |memory| == RAM_SIZE
    ensures |r| == RAM_SIZE
    ensures forall i :: 0 <= i < RAM_SIZE ==> r[i] == if RAM_START + i in writes then writes[RAM_START + i] else memory[i]
  {
    seq<Byte>(RAM_SIZE, i requires 0 <= i < RAM_SIZE =>
      if RAM_START + i in writes then writes[RAM_START + i] else memory[i])
  }

  /** The environment calls that give control to the monitor: exit, an unknown service, a buffer outside RAM, and
      an address too high to resume after. */
  predicate CallStops(context: Context)
    requires |context.x| == 32
  {
    match ServiceOf(context.x[17])
    case Exit => true
    case Unknown => true
    case WriteBuffer => !BufferInRam(context.x[10], context.x[11]) || context.mepc + 4 >= 0x1_0000_0000_0000_0000
    case _ => context.mepc + 4 >= 0x1_0000_0000_0000_0000
  }

  /** A trap that gives control to the monitor without putting back what is planted. */
  predicate StopsInCall(s: State, mcause: Word64, mepc: Word64)
    requires |s.context.x| == 32
  {
    mcause == ENVIRONMENT_CALL && CallStops(Entered(s, mcause, mepc).context)
  }

  /** When an event can happen. The program never stores into a word that carries a breakpoint; an
      environment call that stops in the monitor finds nothing temporary planted. */
  predicate Allowed(s: State, event: Event)
  {
    match event
    case Edit(_, bytes) => s.control == Monitor && 1 <= |bytes| <= MAX_EDIT_BYTES
    case Stores(writes, after) =>
      s.control == Target && |after.x| == 32
      && forall a :: a in writes ==> InRam(a) && !OnBreakpoint(s, a)
    case TrapTaken(mcause, mepc, _) =>
      s.control == Target && |s.context.x| == 32 && (StopsInCall(s, mcause, mepc) ==> Settled(s))
    case _ => s.control == Monitor
  }

  function Next(s: State, event: Event): (r: State)
    requires WellFormed(s) && (event.Stores? ==> |event.after.x| == 32)
    ensures WellFormed(r)
  {
    match event
    case Break(address) => BreakTarget(s, address)
    case Delete(number) => DeleteBreakpoint(s, number)
    case Edit(address, bytes) => EditMemory(s, address, bytes)
    case Undo => UndoMemory(s)
    case Step => StepTarget(s)
    case Run(budget) => RunTarget(s, budget)
    case Continue => ContinueTarget(s)
    case Save => SaveSnapshot(s)
    case Restore => RestoreSnapshot(s)
    case Watch(address, width, kind) => AddWatchpoint(s, address, width, kind)
    case DeleteWatch(number) => DeleteWatchpoint(s, number)
    case Rewrite(document) => s.(document := document)
    case Stores(writes, after) => s.(ram := ApplyStores(s.ram, writes), context := after)
    case TrapTaken(mcause, mepc, input) => Trap(s, mcause, mepc, input)
  }

  /** What the event does to memory when no monitor is in the way. A restore makes the EBREAK of every enabled slot
      part of the program before it copies the saved regions in, so that only slots outside them are left. */
  function PlainEffect(memory: seq<Byte>, s: State, event: Event): (r: seq<Byte>)
    requires WellFormed(s) && |memory| == RAM_SIZE
    ensures |r| == RAM_SIZE
  {
    match event
    case Edit(address, bytes) => if EditAccepted(s, address, |bytes|) then Overwrite(memory, address, bytes) else memory
    case Undo => if UndoAccepted(s) then Overwrite(memory, s.undo.address, s.undo.original) else memory
    case Stores(writes, _) => ApplyStores(memory, writes)
    case Restore => if s.snapshot.valid then WithRegions(ArmSlots(memory, s.permanent, 0), s.snapshot) else memory
    case _ => memory
  }

  ghost predicate Invariant(s: State)
  {
    Coherent(s) && SnapshotOk(s.snapshot)
  }

  // ---- each event keeps the invariant and has only its plain effect on the view ----

  lemma ResumeKeepsView(s: State)
    requires Coherent(s) && Settled(s)
    ensures var r := ResumeSingleStep(s); Coherent(r) && View(r) == View(s) && r.snapshot == s.snapshot
  {
    hide View, Coherent, PreparePermanentStep, NextExecutionPc, WordAt, StoreWord, SlotFrom, InstallTemporary, WatchpointForInstruction;
    CoherentParts(s);
    var r := ResumeSingleStep(s);
    KeepsControl(s, r.context, r.runRemaining, r.control);
    var pc := s.context.pc;
    var slot := PermanentAt(s, pc);
    if slot.Some? {
      PrepareKeepsView(s, slot.value);
      var t := PreparePermanentStep(s, slot.value).0;
      PrepareKeepsSnapshot(s, slot.value);
      KeepsControl(s, s.context, s.runRemaining, Monitor);
      ViewIgnoresControl(t);
    }
    var t := s.(control := Target);
    KeepsControl(s, s.context, s.runRemaining, Target);
    forall address: Word64 | InstallTemporary(s, address).Some?
      ensures var u := InstallTemporary(s, address).value;
              forall context: Context :: |context.x| == 32 ==>
                Coherent(u.(context := context, control := Target)) && View(u.(context := context, control := Target)) == View(s)
                && u.snapshot == s.snapshot
    {
      InstallAndResume(s, address);
    }
  }

  lemma InstallAndResume(s: State, address: Word64)
    requires Coherent(s) && Settled(s) && InstallTemporary(s, address).Some?
    ensures var u := InstallTemporary(s, address).value;
            u.snapshot == s.snapshot
            && forall context: Context :: |context.x| == 32 ==>
                 Coherent(u.(context := context, control := Target)) && View(u.(context := context, control := Target)) == View(s)
  {
    hide View, SlotsPlanted, TouchesBreakpoint, WordAt, StoreWord, SlotFrom, SlotsOk;
    var t := s.(control := Target);
    ControlOnly(s, t);
    InstallKeepsView(t, address);
    var v := InstallTemporary(t, address).value;
    var u := InstallTemporary(s, address).value;
    assert v == u.(control := Target);
    forall context: Context | |context.x| == 32
      ensures Coherent(u.(context := context, control := Target)) && View(u.(context := context, control := Target)) == View(s)
    {
      ControlOnly(v, u.(context := context, control := Target));
    }
  }

  lemma PrepareKeepsSnapshot(s: State, slot: nat)
    requires WellFormed(s) && slot < SLOTS
    ensures PreparePermanentStep(s, slot).0.snapshot == s.snapshot
  {
    hide NextExecutionPc, StoreWord, WordAt, SlotFrom;
  }

  lemma KeepsControl(s: State, context: Context, runRemaining: nat, control: Control)
    requires Coherent(s) && Settled(s) && |context.x| == 32
    ensures var r := s.(context := context, runRemaining := runRemaining, control := control);
            Coherent(r) && View(r) == View(s)
  {
    ControlOnly(s, s.(context := context, runRemaining := runRemaining, control := control));
  }

  lemma ContinueKeepsView(s: State)
    requires Coherent(s) && Settled(s)
    ensures var r := ContinueTarget(s); Coherent(r) && View(r) == View(s) && r.snapshot == s.snapshot
  {
    hide View, Coherent, PreparePermanentStep, WordAt, SlotFrom;
    CoherentParts(s);
    var r := ContinueTarget(s);
    KeepsControl(s, r.context, r.runRemaining, r.control);
    var slot := PermanentAt(s, s.context.pc);
    if slot.Some? {
      PrepareKeepsView(s, slot.value);
      PrepareKeepsSnapshot(s, slot.value);
      KeepsControl(s, s.context, s.runRemaining, Monitor);
      ViewIgnoresControl(PreparePermanentStep(s, slot.value).0);
    }
  }

  lemma StopKeepsView(s: State)
    requires Coherent(s) && s.control == Target
    ensures var r := StopOrStep(s); Coherent(r) && View(r) == View(s) && r.snapshot == s.snapshot
  {
    hide View, Coherent, RestoreStepped, RestoreTemporary, WordAt, SlotFrom, ResumeSingleStep;
    CoherentParts(s);
    RestoreTemporaryKeepsView(s);
    var u := RestoreTemporary(s);
    RestoresKeepRest(s);
    RestoreSteppedKeepsView(u);
    RestoresKeepRest(u);
    var t := RestoreStepped(u);
    KeepsControl(t, t.context, 0, Monitor);
    KeepsControl(t, t.context, t.runRemaining, Monitor);
    if t.runRemaining > 1 {
      KeepsControl(t, t.context, t.runRemaining - 1, t.control);
      ResumeKeepsView(t.(runRemaining := t.runRemaining - 1));
    }
  }

  /** Changes of the registers and of who is in control, with everything else as it was. */
  predicate OnlyControl(s: State, r: State)
  {
    r == s.(context := r.context, control := r.control)
  }

  lemma CallOnlyControl(s: State, input: Byte)
    requires WellFormed(s)
    ensures var r := EnvironmentCall(s, input);
            OnlyControl(s, r) && (r.control == Monitor <==> CallStops(s.context))
  {
  }

  /** Any trap - a stop, an external interrupt, a service - shows the same memory, and keeps the invariant unless
      an environment call stops in the monitor with something temporary planted. */
  lemma TrapKeepsView(s: State, mcause: Word64, mepc: Word64, input: Byte)
    requires Coherent(s) && s.control == Target
    ensures var r := Trap(s, mcause, mepc, input);
            View(r) == View(s) && r.snapshot == s.snapshot && (Coherent(r) <==> (StopsInCall(s, mcause, mepc) ==> Settled(s)))
  {
    hide View, EnvironmentCall, StopOrStep, CallStops, SlotsPlanted, TouchesBreakpoint, WordAt, SlotsOk;
    var t := Entered(s, mcause, mepc);
    ControlOnly(s, t);
    if IsExternalInterrupt(mcause) {
      ControlOnly(t, ResumeTarget(t));
    } else if mcause == ENVIRONMENT_CALL {
      var r := EnvironmentCall(t, input);
      CallOnlyControl(t, input);
      ViewOnlyControl(t, r);
      if r.control == Target || Settled(s) { ControlOnly(t, r); }
    } else {
      StopKeepsView(t);
    }
  }

  lemma ViewOnlyControl(s: State, r: State)
    requires WellFormed(s) && WellFormed(r) && OnlyControl(s, r)
    ensures View(r) == View(s)
  {
    SameWords(s, r);
  }

  lemma RestoresKeepRest(s: State)
    requires WellFormed(s)
    ensures var r := RestoreTemporary(s); r.control == s.control && r.snapshot == s.snapshot && r.context == s.context
    ensures var r := RestoreStepped(s); r.control == s.control && r.snapshot == s.snapshot && r.context == s.context
  {
    hide StoreWord, WordAt;
  }

  /** The program's stores go through to its view. */
  lemma StoresReachView(s: State, writes: map<int, Byte>, after: Context)
    requires Coherent(s) && Allowed(s, Stores(writes, after))
    ensures var r := Next(s, Stores(writes, after)); Coherent(r) && View(r) == ApplyStores(View(s), writes)
  {
    hide WordAt, ByteOf, View;
    var r := Next(s, Stores(writes, after));
    forall w | ValidWordAddress(w) && (PermanentAt(s, w).Some? || TemporaryAt(s, w))
      ensures WordAt(r.ram, w) == WordAt(s.ram, w)
    {
      StoredWordKept(s, writes, w);
    }
    forall i | 0 <= i < SLOTS && s.permanent[i].enabled
      ensures WordAt(r.ram, s.permanent[i].address) == WordAt(s.ram, s.permanent[i].address)
    {
      SlotIsUnique(s.permanent, i);
    }
    assert forall a :: OnBreakpoint(r, a) == OnBreakpoint(s, a);
    forall i | 0 <= i < RAM_SIZE ensures View(r)[i] == ApplyStores(View(s), writes)[i] {
      var a := RAM_START + i;
      WordOfValid(a);
      if !OnBreakpoint(s, a) {
        PlainByte(s, a);
        PlainByte(r, a);
      }
    }
  }

  lemma StoredWordKept(s: State, writes: map<int, Byte>, w: int)
    requires WellFormed(s) && ValidWordAddress(w) && (PermanentAt(s, w).Some? || TemporaryAt(s, w))
    requires forall a :: a in writes ==> InRam(a) && !OnBreakpoint(s, a)
    ensures WordAt(ApplyStores(s.ram, writes), w) == WordAt(s.ram, w)
  {
    assert WordOf(w) == w && WordOf(w + 1) == w && WordOf(w + 2) == w && WordOf(w + 3) == w;
    assert OnBreakpoint(s, w) && OnBreakpoint(s, w + 1) && OnBreakpoint(s, w + 2) && OnBreakpoint(s, w + 3);
    var r, i := ApplyStores(s.ram, writes), w - RAM_START;
    assert RAM_START + i == w;
    assert r[i] == s.ram[i] && r[i + 1] == s.ram[i + 1] && r[i + 2] == s.ram[i + 2] && r[i + 3] == s.ram[i + 3];
  }

  lemma KeptSnapshot(s: State, event: Event)
    requires WellFormed(s) && !event.Save? && !event.Restore? && Allowed(s, event)
    requires !event.Step? && !event.Run? && !event.Continue? && !event.TrapTaken?
    ensures Next(s, event).snapshot == s.snapshot
  {
    hide StoreWord, StoreBytes, WordAt, SlotFrom, FreeWatch;
  }

  /** One event: the invariant is kept, and the program's view changes as plain memory would. */
  lemma EventIsTransparent(s: State, event: Event)
    requires Invariant(s) && Allowed(s, event)
    ensures var r := Next(s, event); Invariant(r) && View(r) == PlainEffect(View(s), s, event)
    ensures !event.Save? ==> Next(s, event).snapshot == s.snapshot
  {
    hide View, BreakTarget, DeleteBreakpoint, EditMemory, UndoMemory, StepTarget, RunTarget, ContinueTarget, SaveSnapshot,
         RestoreSnapshot, Trap, Coherent, SnapshotOk, WithRegions, Overwrite, ApplyStores, TouchesBreakpoint, ArmSlots,
         StopsInCall, FreeWatch;
    CoherentParts(s);
    if s.control == Monitor { SettledInMonitor(s); }
    if !event.Save? && !event.Restore? && !event.Step? && !event.Run? && !event.Continue? && !event.TrapTaken? {
      KeptSnapshot(s, event);
    }
    match event
    case Break(address) => BreakKeepsView(s, address);
    case Delete(number) => DeleteKeepsView(s, number);
    case Edit(address, bytes) => EditChangesView(s, address, bytes);
    case Undo => UndoChangesView(s);
    case Step => StepKeepsView(s);
    case Run(budget) => RunKeepsView(s, budget);
    case Continue => ContinueKeepsView(s);
    case Save => SaveKeepsInvariant(s);
    case Restore =>
      if s.snapshot.valid { RestoreKeepsInvariant(s); RestoreEffect(s); RestoreKeepsSnapshot(s); } else { RestoreNothing(s); }
    case Watch(address, width, kind) => TablesOnly(s, Next(s, event));
    case DeleteWatch(number) => TablesOnly(s, Next(s, event));
    case Rewrite(document) => TablesOnly(s, Next(s, event));
    case Stores(writes, after) => StoresReachView(s, writes, after);
    case TrapTaken(mcause, mepc, input) => TrapKeepsView(s, mcause, mepc, input);
  }

  /** The watchpoints and the source text are no part of the program. */
  lemma TablesOnly(s: State, r: State)
    requires Coherent(s) && WellFormed(r) && r == s.(watchpoints := r.watchpoints, document := r.document)
    ensures Coherent(r) && View(r) == View(s)
  {
    hide View, SlotsPlanted, TouchesBreakpoint, WordAt, SlotsOk;
    ControlOnly(s, r);
  }

  lemma SettledInMonitor(s: State)
    requires Coherent(s) && s.control == Monitor
    ensures Settled(s)
  {
  }

  lemma RestoreKeepsSnapshot(s: State)
    requires WellFormed(s)
    ensures RestoreSnapshot(s).snapshot == s.snapshot
  {
  }

  lemma RestoreNothing(s: State)
    requires WellFormed(s) && !s.snapshot.valid
    ensures RestoreSnapshot(s) == s
  {
  }

  lemma StepKeepsView(s: State)
    requires Coherent(s) && Settled(s)
    ensures var r := StepTarget(s); Coherent(r) && View(r) == View(s) && r.snapshot == s.snapshot
  {
    hide View, Coherent, ResumeSingleStep;
    CoherentParts(s);
    ResumeKeepsView(s);
    KeepsControl(s, s.context, s.runRemaining, Monitor);
  }

  lemma RunKeepsView(s: State, budget: nat)
    requires Coherent(s) && Settled(s)
    ensures var r := RunTarget(s, budget); Coherent(r) && View(r) == View(s) && r.snapshot == s.snapshot
  {
    hide View, Coherent, ResumeSingleStep;
    CoherentParts(s);
    KeepsControl(s, s.context, budget, s.control);
    ResumeKeepsView(s.(runRemaining := budget));
    KeepsControl(s, s.context, s.runRemaining, Monitor);
  }

  // ---- whole runs ----

  /** A run: states one longer than the events, each step allowed. */
  ghost predicate IsRun(states: seq<State>, events: seq<Event>)
  {
    |states| == |events| + 1
    && forall i :: 0 <= i < |events| ==>
         WellFormed(states[i]) && Allowed(states[i], events[i]) && states[i + 1] == Next(states[i], events[i])
  }

  lemma RunIsWellFormed(states: seq<State>, events: seq<Event>)
    requires IsRun(states, events) && WellFormed(states[0])
    ensures forall i :: 0 <= i < |states| ==> WellFormed(states[i])
  {
    hide WellFormed, Next;
    forall i | 0 <= i < |states| ensures WellFormed(states[i]) {
      if i > 0 { assert Allowed(states[i - 1], events[i - 1]) && states[i] == Next(states[i - 1], events[i - 1]); }
    }
  }

  /** The memory a program sees through a run, with no monitor in the way. */
  function PlainRun(memory: seq<Byte>, states: seq<State>, events: seq<Event>, n: nat): (r: seq<Byte>)
    requires n <= |events| < |states| && |memory| == RAM_SIZE
    requires forall i :: 0 <= i < |states| ==> WellFormed(states[i])
    ensures |r| == RAM_SIZE
  {
    if n == 0 then memory
    else PlainEffect(PlainRun(memory, states, events, n - 1), states[n - 1], events[n - 1])
  }

  /** In every run the invariant holds throughout, and the view changes by accepted edits and undos,
      restores and the program's own stores, and by nothing else. */
  lemma {:induction false} RunIsTransparent(states: seq<State>, events: seq<Event>, n: nat)
    requires IsRun(states, events) && Invariant(states[0]) && n <= |events|
    ensures forall i :: 0 <= i <= n ==> Invariant(states[i])
    ensures forall i :: 0 <= i < |states| ==> WellFormed(states[i])
    ensures View(states[n]) == PlainRun(View(states[0]), states, events, n)
    decreases n
  {
    hide View, Coherent, SnapshotOk, Next, Allowed, PlainEffect;
    CoherentParts(states[0]);
    RunIsWellFormed(states, events);
    if n > 0 {
      RunIsTransparent(states, events, n - 1);
      EventIsTransparent(states[n - 1], events[n - 1]);
    }
  }

  /** Whenever the monitor has control in a run: no temporary breakpoint, nothing half stepped,
      distinct addresses, and EBREAK in every enabled slot's word. */
  lemma MonitorControlIsClean(states: seq<State>, events: seq<Event>, n: nat)
    requires IsRun(states, events) && Invariant(states[0]) && n <= |events| && states[n].control == Monitor
    ensures WellFormed(states[n]) && Settled(states[n])
    ensures forall i, j :: 0 <= i < j < SLOTS && states[n].permanent[i].enabled && states[n].permanent[j].enabled ==>
              states[n].permanent[i].address != states[n].permanent[j].address
    ensures forall i :: 0 <= i < SLOTS && states[n].permanent[i].enabled ==>
              TargetLoad32(states[n].ram, states[n].permanent[i].address) == Some(EBREAK_WORD)
  {
    hide View, TouchesBreakpoint, WordAt, Next, Allowed, SnapshotOk, PlainRun;
    RunIsTransparent(states, events, n);
    assert Invariant(states[n]);
  }

  /** A freshly started monitor satisfies the invariant. */
  lemma FreshMonitor(s: State)
    requires WellFormed(s) && Settled(s) && !s.undo.valid && !s.snapshot.valid
    requires forall i :: 0 <= i < SLOTS ==> !s.permanent[i].enabled
    ensures Invariant(s) && View(s) == s.ram
  {
    forall i | 0 <= i < RAM_SIZE ensures View(s)[i] == s.ram[i] {
      PlainByte(s, RAM_START + i);
    }
  }

  /** Save, then anything but another save, then restore: the program sees both regions as they were saved, whatever
      breakpoints are set elsewhere by then; exactly the saved breakpoints are armed, those that lay in the regions;
      watchpoints, source text and registers are back, and nothing temporary or undoable is left. */
  lemma SaveThenRestore(states: seq<State>, events: seq<Event>)
    requires IsRun(states, events) && Invariant(states[0]) && |events| >= 2
    requires events[0] == Save && states[0].context.mcause == BREAKPOINT_CAUSE
    requires events[|events| - 1] == Restore
    requires forall i :: 1 <= i < |events| ==> !events[i].Save?
    ensures WellFormed(states[0]) && WellFormed(states[|events|])
    ensures var before, after := states[0], states[|events|];
            && Region(View(after), WORKSPACE_START, WORKSPACE_BYTES) == Region(View(before), WORKSPACE_START, WORKSPACE_BYTES)
            && Region(View(after), DATA_START, DATA_BYTES) == Region(View(before), DATA_START, DATA_BYTES)
            && Settled(after) && after.undo == NO_UNDO && after.context == before.context
            && after.watchpoints == before.watchpoints && after.document == before.document
            && (forall i :: 0 <= i < SLOTS ==>
                  after.permanent[i] == if before.permanent[i].enabled && InSnapshotRegion(before.permanent[i].address)
                                        then before.permanent[i] else DISABLED)
            && (forall i :: 0 <= i < SLOTS && after.permanent[i].enabled ==>
                  TargetLoad32(after.ram, after.permanent[i].address) == Some(EBREAK_WORD))
  {
    hide View, Coherent, SnapshotOk, PlainRun, SaveSnapshot, RestoreSnapshot, WordAt, WithRegions;
    var n := |events| - 1;
    var before, last, after := states[0], states[n], states[n + 1];
    RunIsTransparent(states, events, n + 1);
    assert Allowed(before, events[0]) && states[1] == Next(before, events[0]);
    assert Allowed(last, events[n]) && after == Next(last, events[n]);
    SettledInMonitor(before);
    SaveStoresView(before);
    SnapshotKept(states, events, n);
    assert Invariant(last);
    SettledInMonitor(last);
    RestoreKeepsInvariant(last);
    RestoreView(last);
    RegionsOf(last.ram, last.snapshot);
    ArmedSlots(after);
  }

  lemma ArmedSlots(s: State)
    requires Coherent(s) && Settled(s)
    ensures forall i :: 0 <= i < SLOTS && s.permanent[i].enabled ==>
              TargetLoad32(s.ram, s.permanent[i].address) == Some(EBREAK_WORD)
  {
    hide WordAt, TouchesBreakpoint;
  }

  lemma {:induction false} SnapshotKept(states: seq<State>, events: seq<Event>, n: nat)
    requires IsRun(states, events) && 1 <= n <= |events|
    requires forall i :: 1 <= i < n ==> !events[i].Save?
    requires forall i :: 0 <= i <= n ==> Invariant(states[i])
    ensures states[n].snapshot == states[1].snapshot
    decreases n
  {
    hide Invariant, Next, Allowed;
    if n > 1 {
      SnapshotKept(states, events, n - 1);
      EventIsTransparent(states[n - 1], events[n - 1]);
    }
  }

  lemma RegionsOf(memory: seq<Byte>, snapshot: Snapshot)
    requires |memory| == RAM_SIZE && |snapshot.workspace| == WORKSPACE_BYTES && |snapshot.data| == DATA_BYTES
    ensures Region(WithRegions(memory, snapshot), WORKSPACE_START, WORKSPACE_BYTES) == snapshot.workspace
    ensures Region(WithRegions(memory, snapshot), DATA_START, DATA_BYTES) == snapshot.data
  {
  }

  // ---- outside the discipline ----

  /** Memory as the program sees it once the monitor has forgotten what it planted at an address. */
  function Forgotten(memory: seq<Byte>, address: int): (r: seq<Byte>)
    requires |memory| == RAM_SIZE && ValidWordAddress(address)
    ensures |r| == RAM_SIZE
  {
    StoreWord(memory, address, EBREAK_WORD)
  }

  /** A temporary breakpoint planted over another, anywhere: the first one's EBREAK has become part of the program. */
  lemma SecondTemporaryForgets(s: State, address: Word64)
    requires WellFormed(s) && SlotsOk(s.permanent)
    requires s.temporary.enabled && ValidWordAddress(s.temporary.address) && WordAt(s.ram, s.temporary.address) == EBREAK_WORD
    requires PermanentAt(s, s.temporary.address).None? && InstallTemporary(s, address).Some?
    ensures View(InstallTemporary(s, address).value) == Forgotten(View(s), s.temporary.address)
  {
    hide View, WordAt, StoreWord, SlotsOk;
    var r := InstallTemporary(s, address).value;
    var planted := s.temporary.address;
    forall w | ValidWordAddress(w) ensures WordAt(View(r), w) == WordAt(Forgotten(View(s), planted), w) {
      ViewWord(r, w);
      ViewWord(s, w);
      StoreWordEffect(View(s), planted, EBREAK_WORD, w);
      StoreWordEffect(s.ram, address, EBREAK_WORD, w);
    }
    SameMemory(View(r), Forgotten(View(s), planted));
  }

  /** An environment call that stops in the monitor with a temporary breakpoint planted leaves it planted. As soon as
      another step plants one, wherever, the program sees an EBREAK at the old place: it sees the memory it had if and
      only if its own word there was an EBREAK. */
  lemma StoppedCallForgets(s: State, mepc: Word64, input: Byte, address: Word64)
    requires Coherent(s) && s.control == Target && s.temporary.enabled && StopsInCall(s, ENVIRONMENT_CALL, mepc)
    requires InstallTemporary(Trap(s, ENVIRONMENT_CALL, mepc, input), address).Some?
    ensures var t := Trap(s, ENVIRONMENT_CALL, mepc, input);
            var r := InstallTemporary(t, address).value;
            && t.control == Monitor && t.temporary == s.temporary && View(t) == View(s)
            && ValidWordAddress(s.temporary.address)
            && View(r) == Forgotten(View(s), s.temporary.address)
            && (View(r) == View(s) <==> s.temporary.originalWord == EBREAK_WORD)
  {
    hide View, EnvironmentCall, CallStops, SlotsPlanted, TouchesBreakpoint, WordAt, SlotsOk, StoreWord, InstallTemporary, SlotFrom;
    var t := Trap(s, ENVIRONMENT_CALL, mepc, input);
    TrapKeepsView(s, ENVIRONMENT_CALL, mepc, input);
    CallOnlyControl(Entered(s, ENVIRONMENT_CALL, mepc), input);
    SecondTemporaryForgets(t, address);
    ForgottenSame(s, View(s), s.temporary.address);
  }

  lemma ForgottenSame(s: State, memory: seq<Byte>, address: int)
    requires WellFormed(s) && memory == View(s) && TemporaryAt(s, address) && ValidWordAddress(address)
    ensures Forgotten(memory, address) == memory <==> s.temporary.originalWord == EBREAK_WORD
  {
    hide View, WordAt, StoreWord;
    forall w | ValidWordAddress(w)
      ensures WordAt(Forgotten(memory, address), w) == if w == address then EBREAK_WORD else WordAt(memory, w)
    {
      StoreWordEffect(memory, address, EBREAK_WORD, w);
    }
    ViewWord(s, address);
    if s.temporary.originalWord == EBREAK_WORD { SameMemory(Forgotten(memory, address), memory); }
  }

  /** So it goes when the exit service is single-stepped and the user steps on from there. */
  lemma ExitThenStepForgets(s: State, mepc: Word64, input: Byte)
    requires Coherent(s) && s.control == Target && s.temporary.enabled && ServiceOf(s.context.x[17]) == Exit
    requires var t := Trap(s, ENVIRONMENT_CALL, mepc, input);
             TargetLoad32(t.ram, mepc) != Some(EBREAK_WORD) && StepTarget(t).control == Target
    ensures ValidWordAddress(s.temporary.address)
    ensures var r := StepTarget(Trap(s, ENVIRONMENT_CALL, mepc, input));
            && View(r) == Forgotten(View(s), s.temporary.address)
            && (View(r) == View(s) <==> s.temporary.originalWord == EBREAK_WORD)
  {
    hide View, SlotsPlanted, TouchesBreakpoint, WordAt, SlotsOk, StoreWord, InstallTemporary, SlotFrom, NextExecutionPc,
         WatchpointForInstruction, Forgotten;
    var t := Trap(s, ENVIRONMENT_CALL, mepc, input);
    var stopPc := NextExecutionPc(t.context, mepc, WordAt(t.ram, mepc)).value;
    StoppedCallForgets(s, mepc, input, stopPc);
    ViewOnlyControl(InstallTemporary(t, stopPc).value, StepTarget(t));
  }
}
