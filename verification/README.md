# RV64 monitor, simulator and assembler: a verified model

The project models five parts of an RV64 development environment and proves what they are for.

* **Software floating point** of the simulator (`BigUint`, `Ieee754`, `Rounding`, `RoundingProof`, `RoundingUnique`,
  `Tininess`, `FloatOps`, `FloatIntegers`, `FloatRoundTrips`, `SoftFloat`, `FloatUnit`). "Correctly rounded" is stated over
  real numbers, against sections 3.4, 4.3, 6.3, 7.2 and 7.4 of IEEE 754-2019: among all finite patterns of the format, none is nearer (or, in a
  directed mode, none lies between). The code works on naturals; `SoftFloat` is the same code over 64-bit limbs in place,
  and `FloatUnit` the instructions over registers and fcsr.
* **The guest monitor** (`GuestState`, `GuestTransparency`, `GuestSnapshots`, `GuestRuns`, `GuestEffects`,
  `GuestStepping`, `GuestWatches`, `GuestDebugger`). Permanent breakpoints, a temporary one, a slot being stepped over, an undo record and a snapshot all
  overlay the RAM of the program being debugged. The *view* is RAM with each armed word replaced by its saved original;
  every run changes it only as plain memory would change.
* **The assembler** (`Macros`, `Conditionals`, `Preprocessor`, `Assembler`, `AssemblerProof`, `AssemblerData`,
  `AssemblerSections`, `ControlTransfer`, `AssemblerPasses`, `Isa`). Conditional blocks, macro expansion, and the two passes whose agreement makes labels correct.
* **Expressions and snapshot files** (`Expressions`, `ExpressionGrammar`, `ExpressionMeaning`, `ExpressionParsers`, `Utf8`,
  `Persistence`, `PersistenceProof`, `PersistenceSnapshots`, `PersistenceLayout`, `PersistenceFiles`, `MonitorTables`). Two
  precedence-climbing engines that give what a grammar and the meaning of its operators ask for; a binary format that is
  read back exactly within its limits.
* **Number formatting and BASIC lines** (`ExactDecimal`, `DecimalPrinter`, `Binary16`, `BasicLines`).

`Powers`, `BitOps`, `Bytes` and `Options` hold powers of two, bitwise operations on naturals, machine words and options.

## How the code is modelled

Where the source computes a value, a function does what that code does, branch by branch; where it changes tables,
buffers or arrays step by step, a class with the same fields has methods proved to leave exactly the state such a function
gives. The properties are proved about the functions, so they hold of the methods.

* Shifts, masks and bitwise operations are `Shl`, `Shr`, `Low` (multiplication, quotient and remainder by a power of two)
  and `BitAnd`, `BitOr`, `BitXor` on naturals; words are integers with their bounds, and wrap-around is written out.
* Underflow follows the code: UF when the delivered number is below the normal range and inexact. IEEE 754-2019, section
  7.5, looks at tininess after rounding with an unbounded exponent instead. `Tininess.UnderflowIsStandardIff` says exactly
  when the two differ: on an interval just below the least normal number (with q the least quantum: from q/2 to q/4 below it
  when rounding to nearest, from q to q/2 below it when rounding away from zero, nowhere otherwise) the subnormal grid
  rounds up to the least normal number where full precision does not, and the code raises NX alone where 7.5 asks for UF
  too. Additions never come there; narrowing conversions do (`Tininess.DoubleRoundsUpTooSoon`).
* Conversion of a NaN to an integer follows its sign bit, where the RISC-V manual asks for the maximum;
  `FloatIntegers.NanConversionMatchesIsa` says exactly when the two agree.
* `line_size` has no case for `.binary16`, `.float`, `.double` and `.binary128` and counts four bytes;
  `AssemblerProof.AddressesAgreeIff` says exactly when the passes agree nevertheless.
* The assembler starts from parsed lines: labels, an operation, operands as tokens. Register names, the other instruction
  encoders, the bits of floating-point literals, and the text-level reading of macro invocations and substitution are
  parameters; every theorem holds for all of them. A local label is a pair of scope and name, where the source joins both
  with "::".
* The monitor's ordered maps are maps; the order in which their keys are written is a parameter, and the theorems hold
  for every order.
* In the guest monitor the characters the console gives are a parameter, and the program is an arbitrary step that does
  not store into a word carrying a breakpoint. Console output is not part of this model.
* `section.bytes` of the assembler and its `pc`: pc counts on through all sections, so a section that is left and taken up
  again does not reproduce the listed addresses; `AssemblerSections.PlacedIff` says exactly when it does.

## Model

| member | source | states |
|---|---|---|
| RoundingProof.RoundBinaryDelivers | crates/machine/src/lib.rs:1037-1098 | for every m > 0, every exponent, both signs, all five modes and every format, the routine delivers m*2^e: correctly rounded among all numbers of the format (section 4.3 of IEEE 754-2019), the prescribed overflow result (7.4), NX exactly when the delivered value differs, and by the routine's own rule UF exactly when the delivered value also lies below the normal range |
| Tininess.UnderflowIsStandardIff | crates/machine/src/lib.rs:1089-1098 | for every m > 0, exponent, sign, mode and format: the routine raises UF exactly when section 7.5 of IEEE 754-2019 asks for it - tiny after rounding with an unbounded exponent, and inexact - if and only if the number is not in the interval just below the least normal one that the subnormal grid rounds up too soon; in that interval 7.5 asks for UF and the routine raises none |
| Tininess.TinyIsDetermined | crates/machine/src/lib.rs:1089-1098 | a number is tiny after rounding exactly when it is below the midpoint under the least normal number, or the boundary its direction gives, however it is rounded at full precision |
| Tininess.UnboundedRoundingExists | crates/machine/src/lib.rs:1052-1065 | every m*2^e has a rounding to the format's precision with an unbounded exponent, among all numbers of that precision |
| Tininess.ConversionUnderflow | crates/machine/src/lib.rs:821-856 | conversion between formats raises UF as 7.5 asks if and only if the value is not rounded up too soon |
| Tininess.AdditionUnderflow | crates/machine/src/lib.rs:971-1021 | addition meets 7.5 on every pair of finite numbers with a nonzero sum |
| Tininess.DoubleRoundsUpTooSoon | crates/machine/src/lib.rs:1091-1097 | a concrete binary64, (2^26-3)*2^-152, that narrows to the least normal binary32 with NX alone where 7.5 asks for UF too |
| Tininess.DoubleRoundsUpRightly | crates/machine/src/lib.rs:1091-1097 | its neighbour (2^26-1)*2^-152 also rounds up to the least normal number, and there NX alone is what 7.5 asks for |
| RoundingUnique.OnlyCorrectResult | crates/machine/src/lib.rs:1037-1098 | the routine's bits and flags are the only ones correctly delivered for m*2^e: a pair is correct if and only if it is what the routine returns |
| RoundingUnique.DeliveryIsUnique | crates/machine/src/lib.rs:1100-1120 | in each mode, ties and overflow included, at most one pattern and one set of flags is correct |
| Rounding.GridRoundingIsRounding | crates/machine/src/lib.rs:1100-1120 | rounding on the grid of one quantum is rounding among all finite patterns, in each mode, ties included |
| Rounding.RoundBigIsRounded | crates/machine/src/lib.rs:1100-1120 | shift, half bit and sticky bits decide exactly as the real fraction lost compares with one half; inexact means the value is off the grid |
| Rounding.OverflowResultIsRight | crates/machine/src/lib.rs:1122-1148 | overflow gives the infinity or the largest finite number of the right sign, and OF with NX |
| FloatOps.AddBinaryIsCorrect | crates/machine/src/lib.rs:971-1021 | every pair of patterns: NaN and NV rules, opposite infinities, signed zero sums (section 6.3), and otherwise the exact real sum correctly delivered, with flags only 0, NX or OF and NX |
| FloatOps.NoUnderflow | crates/machine/src/lib.rs:996-1020 | a sum of two finite numbers that falls below the normal range is exact, so addition raises no UF |
| FloatOps.ConvertBinaryIsCorrect | crates/machine/src/lib.rs:821-856 | conversion between formats: NaN canonical with NV only for signalling ones, infinities and zeros keep their sign, every other value correctly delivered |
| FloatOps.ConvertIntegerIsCorrect | crates/machine/src/lib.rs:858-871 | an integer is delivered as the correctly rounded real number it is; zero is +0 |
| FloatOps.MasksReadFields | crates/machine/src/lib.rs:1023-1035 | the mask tests of the code recognise NaN, signalling NaN, infinity and sign, and the components are the significand and quantum of the pattern |
| FloatIntegers.ConvertToIntegerIsCorrect | crates/machine/src/lib.rs:873-965 | the value rounded to an integer in the mode, NX iff inexact, when in range; otherwise the bound with NV alone; NaN gives NV and the bound its sign selects |
| FloatIntegers.IntegerRoundingUnique | crates/machine/src/lib.rs:884-897 | at most one integer is the rounding of a value, so the previous result is determined |
| FloatIntegers.RegisterImageMeans | crates/machine/src/lib.rs:925-942 | the register is the integer modulo 2^64, or modulo 2^32 with its top bit repeated through the upper half |
| FloatIntegers.IntegerBounds | crates/machine/src/lib.rs:899-909 | the bounds of saturation are those of 32- and 64-bit integers, signed or not |
| FloatIntegers.NanConversionMatchesIsa | crates/machine/src/lib.rs:880-882 | a NaN converts to the maximum, as the RISC-V manual asks, if and only if its sign bit is clear |
| FloatIntegers.NegativeNanExample | crates/machine/src/lib.rs:880-882 | a concrete negative NaN that converts to the minimum instead |
| FloatRoundTrips.RepresentableIsKept | crates/machine/src/lib.rs:1037-1098 | a number of the format is delivered as its own pattern, with no flag, in every mode |
| FloatRoundTrips.WidenThenNarrow | crates/machine/src/lib.rs:821-856 | every non-NaN binary32 widened and narrowed in any two modes is the same pattern with no flag |
| FloatRoundTrips.IntegerTrip | crates/machine/src/lib.rs:858-943 | every 32-bit integer, and every 64-bit one of magnitude at most 2^53, survives the trip through binary64 with no flag |
| Ieee754.PatternUnique | crates/machine/src/lib.rs:1023-1035 | two finite patterns of the same sign that denote the same number are equal |
| BigUints.BigUint.FromU64 | crates/machine/src/lib.rs:694-700 | the limbs denote the word, without a zero limb |
| BigUints.BigUint.IsZero | crates/machine/src/lib.rs:702-704 | no limbs exactly for zero |
| BigUints.BigUint.BitLength | crates/machine/src/lib.rs:706-710 | the bit length of the number denoted |
| BigUints.BigUint.BitSet | crates/machine/src/lib.rs:712-716 | the bit of the number denoted, at any index |
| BigUints.BigUint.AnyBelow | crates/machine/src/lib.rs:718-732 | whether the remainder by 2^k is nonzero |
| BigUints.BigUint.ShlBits | crates/machine/src/lib.rs:734-757 | the number times 2^n, the top limb nonzero |
| BigUints.BigUint.AddAssign | crates/machine/src/lib.rs:759-773 | the sum, the top limb nonzero |
| BigUints.BigUint.Cmp | crates/machine/src/lib.rs:775-780 | the order of the numbers |
| BigUints.BigUint.SubAssign | crates/machine/src/lib.rs:782-795 | the difference of an ordered pair, without leading zero limbs |
| BigUints.BigUint.LowU64 | crates/machine/src/lib.rs:797-799 | the number modulo 2^64 |
| BigUints.BigUint.ShiftedU64 | crates/machine/src/lib.rs:801-806 | the quotient by 2^k modulo 2^64 |
| BigUints.BitAtValue | crates/machine/src/lib.rs:712-716 | a limb's bit is the number's bit |
| BigUints.AnyBelowValue | crates/machine/src/lib.rs:718-732 | scanning whole limbs and one partial limb finds exactly a nonzero remainder |
| BigUints.CompareFromTopValue | crates/machine/src/lib.rs:775-780 | comparing limbs from the top compares the numbers |
| BigUints.ShiftedFoldValue | crates/machine/src/lib.rs:801-806 | collecting bits one by one gives the shifted quotient |
| SoftFloat.RoundBigLimbs | crates/machine/src/lib.rs:1100-1120 | the rounding step on limbs computes the specified pair |
| SoftFloat.RoundBinaryLimbs | crates/machine/src/lib.rs:1037-1098 | the rounding routine on limbs computes the specified bits and flags |
| SoftFloat.AddBinaryLimbs | crates/machine/src/lib.rs:971-1021 | addition on limbs, aligned in place, computes the specified bits and flags |
| SoftFloat.ConvertBinaryLimbs | crates/machine/src/lib.rs:821-856 | format conversion on limbs computes the specified bits and flags |
| SoftFloat.ConvertIntegerLimbs | crates/machine/src/lib.rs:858-871 | integer conversion on limbs computes the specified bits and flags |
| SoftFloat.ConvertToIntegerLimbs | crates/machine/src/lib.rs:873-943 | conversion to an integer on limbs computes the specified register and flags |
| FloatUnit.AddStepIsCorrect | crates/machine/src/lib.rs:201-238 | an executed FADD works in frm (fcsr / 32 mod 8) when its own mode is 7 and in its own mode otherwise, writes what addition delivers for its unboxed operands - NaNs, infinities, signed zeros or the correctly rounded sum - as the register image of its format, ors exactly its flags into fcsr, and touches no other register |
| FloatUnit.NarrowStepIsCorrect | crates/machine/src/lib.rs:272-287 | FCVT.S.D writes the boxed binary32 its operand's number is correctly delivered as, in the mode in force, with exactly its flags |
| FloatUnit.WidenStepIsCorrect | crates/machine/src/lib.rs:272-287 | FCVT.D.S writes the binary64 its unboxed operand's number is delivered as, with exactly its flags |
| FloatUnit.ToIntegerStepIsCorrect | crates/machine/src/lib.rs:297-370 | FCVT to W, WU, L and LU writes its operand's number rounded to an integer in the mode in force, or the bound with NV, to the integer register, x0 excepted |
| FloatUnit.FromIntegerStepIsCorrect | crates/machine/src/lib.rs:297-370 | FCVT from W, WU, L and LU writes the correctly rounded image of the integer the register holds |
| FloatUnit.TrapsOnReservedMode | crates/machine/src/lib.rs:201-238 | an instruction traps exactly when the mode in force is above 4 |
| FloatUnit.IntegerOperand | crates/machine/src/lib.rs:297-370 | the integer read from a register is the one congruent to it modulo 2^32 or 2^64 that lies in the signed or unsigned range |
| FloatUnit.SingleOperand | crates/machine/src/lib.rs:643-649 | a register holds its lower half when the upper half is all ones, and else the canonical NaN |
| FloatUnit.FlagPlaces | crates/machine/src/lib.rs:13-17 | inexact, underflow, overflow and invalid are bits 0, 1, 2 and 4 |
| FloatUnit.StepAccumulates | crates/machine/src/lib.rs:201-389 | an executed instruction raises exactly its own flags in fcsr and leaves the rounding mode alone |
| FloatUnit.RunAccumulates | crates/machine/src/lib.rs:201-389 | over any run no flag is lowered, frm stays, and x0 reads zero |
| FloatUnit.WidenNarrowRegisters | crates/machine/src/lib.rs:272-287 | FCVT.D.S then FCVT.S.D gives back a boxed non-NaN single in any modes, fcsr untouched |
| FloatUnit.IntegerTripRegisters | crates/machine/src/lib.rs:297-370 | FCVT from and to an integer register gives back the integer, fcsr untouched |
| FloatUnit.Machine.Execute | crates/machine/src/lib.rs:201-413 | one addition or conversion over the register fields, on limbs: the specified step, pc four further and one more instruction counted; a reserved rounding mode changes nothing; a pc that cannot advance fails after the registers are written |
| GuestRuns.RunIsTransparent | crates/guest-monitor/src/main.rs:252-325 | in every run of commands, stores, interrupts, environment calls and other traps the invariant holds throughout and the program's view of RAM is what plain memory would hold after the accepted edits, undos, restores and the program's own stores; a restore first makes the EBREAK of every enabled slot part of the program |
| GuestRuns.MonitorControlIsClean | crates/guest-monitor/src/main.rs:252-305 | whenever the monitor has control: no temporary breakpoint, nothing half stepped, enabled slots at distinct addresses, an EBREAK at each |
| GuestRuns.EventIsTransparent | crates/guest-monitor/src/main.rs:252-325 | one event keeps the invariant and changes the view exactly as plain memory would change |
| GuestRuns.TrapKeepsView | crates/guest-monitor/src/main.rs:252-375 | any trap - a stop, an external interrupt, a service - shows the same memory, and keeps the invariant if and only if it is not an environment call that stops in the monitor with something temporary planted |
| GuestRuns.ResumeKeepsView | crates/guest-monitor/src/main.rs:3430-3502 | resuming for one step plants or lifts breakpoints without changing the view |
| GuestRuns.ContinueKeepsView | crates/guest-monitor/src/main.rs:3550-3582 | continuing, over a permanent breakpoint or not, shows the same memory |
| GuestRuns.StoresReachView | crates/guest-monitor/src/main.rs:252-305 | the program's stores reach its view unchanged |
| GuestRuns.SaveThenRestore | crates/guest-monitor/src/main.rs:1860-1995 | a snapshot saved, then any events but another save, then restored: both regions look as they did wherever breakpoints are by then, the slots are exactly the saved ones that lay in the regions, each armed; watchpoints, source text, symbols and registers are back; nothing temporary, stepped or undoable is left |
| GuestRuns.FreshMonitor | crates/guest-monitor/src/main.rs:218-251 | a monitor with empty tables satisfies the invariant and shows RAM as it is |
| GuestRuns.StoppedCallForgets | crates/guest-monitor/src/main.rs:327-375 | an environment call that stops in the monitor leaves the temporary breakpoint planted; when another is planted, anywhere, the program sees memory with EBREAK stored at the old place: the memory it had if and only if its own word there was an EBREAK |
| GuestRuns.ExitThenStepForgets | crates/guest-monitor/src/main.rs:363-369 | the same when the exit service is single-stepped and the user steps on |
| GuestRuns.SecondTemporaryForgets | crates/guest-monitor/src/main.rs:3858-3879 | a temporary breakpoint planted over another, at the same place or elsewhere: the view is the old one with EBREAK stored where the first stood |
| GuestTransparency.BreakKeepsView | crates/guest-monitor/src/main.rs:3704-3753 | break, accepted or refused, keeps the invariant and the view |
| GuestTransparency.DeleteKeepsView | crates/guest-monitor/src/main.rs:3755-3790 | delete, accepted or refused, keeps the invariant and the view |
| GuestTransparency.DeleteUndoesBreak | crates/guest-monitor/src/main.rs:3704-3790 | deleting a breakpoint just set gives back RAM byte for byte |
| GuestTransparency.EditChangesView | crates/guest-monitor/src/main.rs:1086-1129 | an edit replaces exactly its bytes of the view if it is accepted, and otherwise changes nothing |
| GuestTransparency.UndoChangesView | crates/guest-monitor/src/main.rs:1131-1165 | undo puts the recorded bytes back if the edited ones are still there, and otherwise changes nothing the program sees |
| GuestTransparency.UndoReversesEdit | crates/guest-monitor/src/main.rs:1086-1165 | undo straight after an accepted edit restores the state of before |
| GuestTransparency.InstallKeepsView | crates/guest-monitor/src/main.rs:3858-3879 | a temporary breakpoint is invisible to the program |
| GuestTransparency.RestoreTemporaryKeepsView | crates/guest-monitor/src/main.rs:3881-3895 | removing the temporary breakpoint is invisible and leaves none |
| GuestTransparency.RestoreSteppedKeepsView | crates/guest-monitor/src/main.rs:3927-3947 | re-arming the stepped slot is invisible and leaves none stepped |
| GuestTransparency.PrepareKeepsView | crates/guest-monitor/src/main.rs:3897-3925 | lifting a permanent breakpoint for one step is invisible; a refusal changes nothing |
| GuestTransparency.WordIsLittleEndian | crates/guest-monitor/src/main.rs:3956-3978 | a word is fetched from its four bytes, and laid out in them, as a little-endian number |
| GuestEffects.RunSlots | crates/guest-monitor/src/main.rs:3704-3790 | in every run the numbered slots are what break, delete and restore made them: break takes the first free slot for a new valid address, delete always frees its own |
| GuestEffects.EventSlots | crates/guest-monitor/src/main.rs:3704-3790 | one event changes the slots as seen from outside, and only so |
| GuestEffects.ResumePlants | crates/guest-monitor/src/main.rs:3430-3502 | a resumed step runs the program's own instruction and has an EBREAK at its architectural successor, but for a jump to itself, an EBREAK of the program's own, and a breakpoint right behind a skipped one |
| GuestEffects.StepResumesIff | crates/guest-monitor/src/main.rs:3430-3502 | a step resumes the program if and only if there is an instruction to step, it touches no watchpoint, and its successor is known, in RAM and free; it spends no budget, and a refusal changes nothing but the budget of a run that met a watchpoint |
| GuestEffects.ContinueResumes | crates/guest-monitor/src/main.rs:3550-3582 | continue resumes at pc anywhere in RAM, behind an EBREAK of the program's own, and over a permanent breakpoint with its slot lifted and its successor armed; outside RAM, and where it cannot step over, nothing changes |
| GuestEffects.RunStarts | crates/guest-monitor/src/main.rs:3410-3502 | step and run act only after a breakpoint stop, run only for 1 to 100000 steps; the first step is then a single step under the whole budget, and any other request changes nothing |
| GuestEffects.RunGoesOn | crates/guest-monitor/src/main.rs:252-325 | at the end of a step a budgeted run goes on if and only if steps are left and the next one can be taken, and spends exactly one; every other stop ends the run |
| GuestEffects.TrapStops | crates/guest-monitor/src/main.rs:252-450 | an external interrupt resumes where it struck and a service behind its call, with everything planted as it was; an environment call stops exactly for exit, an unknown service, a buffer outside RAM and a pc too high, and changes no register but the character it gives; any other trap resumes only a budgeted run with steps left, then with fewer, and a user's breakpoint and every other cause stop in the monitor at the trapping pc |
| GuestEffects.StepStaysInFlight | crates/guest-monitor/src/main.rs:252-450 | over any sequence of stores, interrupts and resuming services a step stays in flight: the same words armed with EBREAK, the same slot lifted, no step of the budget spent |
| GuestStepping.StepStopsAtSuccessor | crates/guest-monitor/src/main.rs:3819-3856 | for every word that decodes to BEQ, BNE or JAL, the step stops exactly where the instruction goes |
| GuestStepping.StopIsSuccessor | crates/guest-monitor/src/main.rs:3819-3856 | for every word and registers the step stops at the architectural successor: BEQ and BNE by their condition, JAL, JALR with bit 0 cleared, four further for every other opcode; other branches, other JALR forms and an overflowing pc are refused |
| GuestStepping.DecodeMeans | crates/isa/src/lib.rs:449-491 | every word decodes to BEQ, BNE or JAL exactly by its opcode and funct3, with the registers and the offset at the places of the B and J formats (section 2.5 of the RISC-V unprivileged manual) |
| GuestStepping.BranchEncodesIff | crates/isa/src/lib.rs:305-325 | the encoder accepts exactly the registers and offsets that some branch word can carry |
| GuestStepping.JumpEncodesIff | crates/isa/src/lib.rs:327-345 | the encoder accepts exactly the registers and offsets that some jump word can carry |
| GuestStepping.EncodedStepStops | crates/guest-monitor/src/main.rs:3819-3856 | stepping an assembled branch stops at its offset when its condition holds and after it when not |
| GuestWatches.WatchHitIff | crates/guest-monitor/src/main.rs:3504-3548 | an instruction is held back if and only if it is an LD or SD of which some byte, at the base register plus the signed offset of its format, is under a watchpoint of its kind; the early ends of the search hide none |
| GuestWatches.AccessIsDoubleword | crates/guest-monitor/src/main.rs:3504-3548 | exactly LD, by opcode 3 and funct3 3, and SD, by opcode 0x23 and funct3 3, are watched, as a read or a write at the base register plus the offset of their formats |
| GuestWatches.WatchTakesEffect | crates/guest-monitor/src/main.rs:3584-3648 | a watchpoint is set, exactly as asked for, in the first free place if and only if its range is one to eight bytes of RAM and a place is free |
| GuestWatches.DeleteTakesEffect | crates/guest-monitor/src/main.rs:3650-3674 | deleting by number frees that place and no other |
| GuestWatches.RunKeepsWatches | crates/guest-monitor/src/main.rs:3584-3674 | in every run the watchpoints in use, and the saved ones, cover one to eight bytes of RAM, as that needs |
| GuestWatches.WatchedStepStops | crates/guest-monitor/src/main.rs:3466-3487 | a step at such an instruction, with nothing planted there, stays in the monitor, ends a budgeted run and changes nothing else |
| GuestSnapshots.SaveStoresView | crates/guest-monitor/src/main.rs:1860-1921 | saving stores the program's view of both regions, the slots inside them, the watchpoints, the source text and the symbols |
| GuestSnapshots.RestoreView | crates/guest-monitor/src/main.rs:1923-1995 | after a restore the program sees RAM with the saved regions copied in |
| GuestSnapshots.RestoreKeepsInvariant | crates/guest-monitor/src/main.rs:1923-1995 | a restore keeps the invariant and leaves nothing temporary, stepped or undoable; slots, watchpoints, source text and registers are the saved ones |
| GuestSnapshots.RestoreEffect | crates/guest-monitor/src/main.rs:1923-1995 | wherever breakpoints lie, what the program sees after a restore is what it saw with the EBREAK of every enabled slot stored into it and then the saved regions copied in |
| GuestSnapshots.RamIsArmedView | crates/guest-monitor/src/main.rs:3704-3790 | while the monitor has control RAM is the program's view with EBREAK at every enabled slot |
| GuestSnapshots.RestoreOutsideRegions | crates/guest-monitor/src/main.rs:1923-1995 | outside the regions a restore keeps the view if and only if every enabled breakpoint there was set on an EBREAK of the program's own |
| GuestDebugger.GuestMonitor.Break | crates/guest-monitor/src/main.rs:3704-3753 | the command on the monitor's tables and RAM leaves the specified state |
| GuestDebugger.GuestMonitor.Delete | crates/guest-monitor/src/main.rs:3755-3790 | the command leaves the specified state |
| GuestDebugger.GuestMonitor.Edit | crates/guest-monitor/src/main.rs:966-1001 | the command leaves the specified state |
| GuestDebugger.GuestMonitor.Undo | crates/guest-monitor/src/main.rs:1131-1165 | the command leaves the specified state |
| GuestDebugger.GuestMonitor.SingleStep | crates/guest-monitor/src/main.rs:3430-3502 | the command leaves the specified state |
| GuestDebugger.GuestMonitor.Continue | crates/guest-monitor/src/main.rs:3550-3582 | the command leaves the specified state |
| GuestDebugger.GuestMonitor.OnTrap | crates/guest-monitor/src/main.rs:252-305 | the trap handler, interrupts and environment calls included, leaves the specified state |
| GuestDebugger.GuestMonitor.HandleEnvironmentCall | crates/guest-monitor/src/main.rs:327-375 | the service dispatch leaves the specified state |
| GuestDebugger.GuestMonitor.WatchpointHit | crates/guest-monitor/src/main.rs:3504-3548 | the search of the watchpoint table gives the specified answer |
| GuestDebugger.GuestMonitor.AddWatch | crates/guest-monitor/src/main.rs:3584-3648 | the command on the watchpoint table leaves the specified state |
| GuestDebugger.GuestMonitor.DeleteWatch | crates/guest-monitor/src/main.rs:3650-3674 | the command leaves the specified state |
| GuestDebugger.GuestMonitor.Save | crates/guest-monitor/src/main.rs:1860-1921 | the command leaves the specified state |
| GuestDebugger.GuestMonitor.Restore | crates/guest-monitor/src/main.rs:1923-1995 | the command leaves the specified state |
| AssemblerProof.PassesAgree | crates/assembler/src/lib.rs:1671-1801 | in every accepted program of sized lines, pass two stands before each line at pass one's pc, in pass one's scope, and its symbols extend pass one's with equal values |
| AssemblerProof.AddressesAgreeIff | crates/assembler/src/lib.rs:1671-1801 | the passes stand at the same address before and after every line if and only if every line is sized: a floating-point data directive is sized exactly when it emits four bytes |
| AssemblerProof.SizeIsLength | crates/assembler/src/lib.rs:2004-2033 | pass two emits as many bytes as pass one counted if and only if the line is sized |
| AssemblerProof.LabelIsItsLine | crates/assembler/src/lib.rs:1831-1858 | every label is in the final symbol table at the address listed for its line |
| AssemblerProof.EntryAddress | crates/assembler/src/lib.rs:1716-1801 | a line's listing entry carries pass one's pc and is never changed by later lines |
| AssemblerProof.DoubleMisplacesLabels | crates/assembler/src/lib.rs:2004-2033 | a label after a `.double` is four bytes too low: the concrete program |
| AssemblerProof.AlignmentReached | crates/assembler/src/lib.rs:776-790 | `.align n` is accepted exactly for n from 0 to 63 and asks for 2^n, `.balign n` exactly for n from 1 to 2^64 - 1 and asks for n; zeros, fewer than the boundary, end on it |
| AssemblerData.DataReadsBack | crates/assembler/src/lib.rs:792-803 | each operand of an accepted data directive is in range, and its bytes in its own place read back as its value in two's complement |
| Bytes.LittleEndianByte | crates/assembler/src/lib.rs:792-803 | byte k of an emitted number is its bits 8k to 8k+7 |
| AssemblerData.DataAcceptedIff | crates/assembler/src/lib.rs:792-803 | a directive of w-byte data is accepted exactly when every operand has a value from -2^(8w-1) to 2^(8w)-1 |
| AssemblerData.StringsReadBack | crates/assembler/src/lib.rs:715-774 | each string's bytes stand behind those before it, a zero right behind each when the directive terminates, and nothing else is emitted |
| AssemblerData.FloatsReadBack | crates/assembler/src/lib.rs:805-842 | the bits of each literal stand little-endian in its own place |
| AssemblerProof.AddressesAreWords | crates/assembler/src/lib.rs:1688-1713 | every address pass one reaches and every label is a 64-bit word |
| AssemblerProof.EntryIsStart | crates/assembler/src/lib.rs:1802 | the entry point is the listed address of the line labelled _start, and zero when there is none |
| AssemblerProof.DefinitionAcceptedIff | crates/assembler/src/lib.rs:1890-1982 | `.equ` and `.set` are accepted exactly when they give a name an expression with a value, the name has a scope if it is local and is no label, and `.equ` finds it new, `.set` not made by `.equ` |
| AssemblerProof.LocalLabels | crates/assembler/src/lib.rs:1823-1825 | local labels are exactly the names that start with .L |
| AssemblerProof.SetAgrees | crates/assembler/src/lib.rs:1984-2002 | a `.set` has the same value in both passes |
| AssemblerProof.LabelsKeep | crates/assembler/src/lib.rs:1831-1874 | labels enter the tables at the current pc, once, and both passes compute the same scope |
| AssemblerProof.ScopedExtends | crates/assembler/src/lib.rs:1876-1888 | a symbol table that extends another gives every name in scope the same value |
| ControlTransfer.TransferReaches | crates/assembler/src/lib.rs:2035-2057 | an assembled BEQ, BNE or JAL decodes to the distance from its own address to its operand's value when that names symbols, and to the value itself when it does not |
| ControlTransfer.TransferLandsOnLabel | crates/assembler/src/lib.rs:2035-2057 | written with a label, it lands on the address where the labelled line was emitted |
| ControlTransfer.LabelMeans | crates/assembler/src/lib.rs:1876-1888 | a label's name evaluates to its line's address in every line in whose scope it is |
| AssemblerPasses.FirstPass.DefineAll | crates/assembler/src/lib.rs:1831-1858 | the label loop over the tables leaves the specified state |
| AssemblerPasses.FirstPass.Define | crates/assembler/src/lib.rs:1935-1982 | `.equ` and `.set` over the tables leave the specified state |
| AssemblerPasses.FirstPass.Run | crates/assembler/src/lib.rs:1688-1713 | pass one's loop computes the specified state or refuses |
| AssemblerPasses.SecondPass.Run | crates/assembler/src/lib.rs:1716-1801 | pass two's loop computes the specified state or refuses |
| AssemblerPasses.Assemble | crates/assembler/src/lib.rs:1671-1820 | both loops compute the specified image: symbols, constants, entry point, text, listing and sections |
| AssemblerSections.SectionsPartitionText | crates/assembler/src/lib.rs:1716-1820 | in every accepted program each section holds exactly the bytes its lines emitted, in order, and starts at the address of its first line (.text at 0); every line stands in one section; together they hold as many bytes as the text |
| AssemblerSections.PlacedIff | crates/assembler/src/lib.rs:1737-1795 | loaded at its address, a section has the bytes of one of its lines at the listed address if and only if no other section emitted anything since the section's start |
| AssemblerSections.InterleavedSections | crates/assembler/src/lib.rs:1737-1795 | text left for another section and taken up again: concrete lines listed behind the other section but standing in the image right behind the first text |
| AssemblerSections.SectionAlignment | crates/assembler/src/lib.rs:1783-1787 | a section's alignment is the largest boundary its lines ask for, and 1 when none does |
| Isa.BranchRoundTrip | crates/isa/src/lib.rs:305-325 | an encoded BEQ or BNE is a 32-bit word that decodes to the same registers and offset |
| Isa.JalRoundTrip | crates/isa/src/lib.rs:327-345 | an encoded JAL is a 32-bit word that decodes to the same register and offset |
| Macros.InlineIsNaive | crates/assembler/src/lib.rs:1338-1393 | what the expander produces is what inlining bodies with substituted arguments produces without its recursion and depth checks |
| Macros.AcceptedIff | crates/assembler/src/lib.rs:1364-1383 | the expander accepts a line if and only if unchecked inlining ends within 32 nested calls and no chain of calls comes back to a macro it is inside of |
| Macros.ExpansionIsConcatenation | crates/assembler/src/lib.rs:1384-1390 | the expansion is the expansions of the body lines with the arguments in place, one after the other in body order, each under its own line number |
| Macros.PlainBodyExpands | crates/assembler/src/lib.rs:1384-1390 | a macro whose substituted lines invoke nothing expands to exactly those lines, in order |
| Macros.InlinedInvokesNothing | crates/assembler/src/lib.rs:1338-1393 | no line of an expansion invokes a defined macro |
| Macros.ExpansionIsFinal | crates/assembler/src/lib.rs:1338-1393 | an expansion expanded again is unchanged |
| Macros.Expander.ExpandLine | crates/assembler/src/lib.rs:1338-1393 | terminates for every table; succeeds exactly when the line can be inlined within the line limit, appends the inlining, and restores the call stack |
| Macros.Expander.ExpandAll | crates/assembler/src/lib.rs:1657-1662 | succeeds exactly when all lines inline within the limit, and outputs their inlinings in order |
| Conditionals.PreprocessIsSelection | crates/assembler/src/lib.rs:1466-1656 | a source is accepted with a result if and only if it is the flattened form of a balanced block tree, at most 32 deep, whose recursive selection gives that result |
| Conditionals.ConditionDecides | crates/assembler/src/lib.rs:1533-1535 | any value but zero selects the yes branch, zero the other, and a condition without a value refuses the source |
| Conditionals.DefinitionIsTaken | crates/assembler/src/lib.rs:1483-1615 | a definition is taken exactly when its name is new, fewer than 256 macros are defined and it holds at most 4096 plain lines, which are then its body in order |
| Conditionals.DefinitionReachesConditions | crates/assembler/src/lib.rs:1446-1464 | a selected `.equ` or `.set` gives its name, for later conditions, the value its expression has there, and changes no other symbol |
| Conditionals.PlainLineIsKept | crates/assembler/src/lib.rs:1446-1464 | any other selected line is kept and only moves the scope to its last global label |
| Conditionals.RunBlock | crates/assembler/src/lib.rs:1521-1572 | the frame machine over a flattened block does what selecting its live branches does, from any state |
| Conditionals.DeadBlockIsSkipped | crates/assembler/src/lib.rs:1521-1572 | in a dead branch nothing is evaluated, kept or defined, whatever stands there |
| Conditionals.ReadItem | crates/assembler/src/lib.rs:1483-1635 | every accepted line extends the nested reading of the source so far |
| Preprocessor.Reader.Read | crates/assembler/src/lib.rs:1483-1635 | one turn of the loop over the preprocessor's variables is one step of the frame machine |
| Preprocessor.ExpandMacros | crates/assembler/src/lib.rs:1466-1663 | the whole preprocessor computes the selected lines, expanded, or refuses |
| Preprocessor.ExpandedInvokesNothing | crates/assembler/src/lib.rs:1466-1663 | its output invokes no macro defined in a live branch and keeps the line limit |
| Expressions.EnginesAgree | crates/assembler/src/expr.rs:62-133 | on every token sequence and symbol table the evaluating engine succeeds with v exactly when the tree engine parses and its tree evaluates to v |
| ExpressionGrammar.ParsesTheGrammar | crates/monitor/src/command.rs:229-289 | the parser accepts exactly the sentences of a stratified grammar - or, xor, and, shift, sum, product, each left associative, unary, primary - with exactly their trees |
| ExpressionGrammar.GrammarIsUnambiguous | crates/assembler/src/expr.rs:186-196 | no token sequence has two trees in that grammar |
| ExpressionMeaning.OperatorsMean | crates/assembler/src/expr.rs:198-219 | on 128-bit numbers each operator gives exactly what it means: sums, differences, products and negation exact or refused, shifts as multiplication modulo 2^128 and floor division, bitwise operators bit by bit in two's complement, and nothing for other shift counts or a zero divisor |
| ExpressionMeaning.ValueIsMeant | crates/monitor/src/command.rs:55-95 | a tree evaluates to v if and only if it means v |
| ExpressionMeaning.EnginesMean | crates/assembler/src/expr.rs:7-133 | both engines give v on a token sequence if and only if its tree in the grammar means v |
| Expressions.PrintThenParse | crates/monitor/src/command.rs:229-273 | printing any tree with the parentheses it needs and parsing that gives the same tree |
| Expressions.MoreSymbols | crates/assembler/src/expr.rs:81-133 | more symbols never change a value that was already defined |
| Expressions.DivisionTruncates | crates/assembler/src/expr.rs:198-219 | division and remainder truncate toward zero |
| Expressions.ShiftRightFloors | crates/assembler/src/expr.rs:198-219 | shifting right rounds toward minus infinity |
| ExpressionParsers.Evaluate | crates/assembler/src/expr.rs:7-22 | the cursor-moving evaluator computes the specified value |
| ExpressionParsers.Parse | crates/monitor/src/command.rs:98-108 | the position-moving parser builds the specified tree |
| PersistenceSnapshots.SnapshotBack | crates/monitor/src/lib.rs:3841-3978 | a saved snapshot is read back exactly when its tables are within the reader's limits; everything is as it was, except conditions without a breakpoint, which are lost |
| PersistenceSnapshots.SnapshotRestoresIff | crates/monitor/src/lib.rs:353-409 | reading back restores the monitor if and only if the tables are within limits and every condition belongs to a breakpoint |
| PersistenceLayout.SnapshotLayout | crates/monitor/src/lib.rs:353-409 | a file is at most 64 MiB: magic, version 4, memory length and registers at fixed places of its first 576 bytes, little-endian, then the tables, the memory, and the checksum in the last eight bytes |
| PersistenceLayout.TreeLayout | crates/monitor/src/lib.rs:3437-3480 | each node is its code, and behind it the number in sixteen bytes of two's complement, the text after its length, or the operator's code and the operands |
| PersistenceLayout.KnownTables | crates/monitor/src/lib.rs:373-399 | one entry in every table, byte by byte |
| PersistenceLayout.KnownChecksums | crates/monitor/src/lib.rs:3684-3691 | the checksum of nothing and of the letter a are the published FNV-1a values |
| PersistenceSnapshots.ChangedSnapshotIsRefused | crates/monitor/src/lib.rs:3531-3552 | a saved file with any one byte changed - magic, contents or checksum - is refused |
| PersistenceSnapshots.ChecksumTellsApart | crates/monitor/src/lib.rs:3684-3691 | contents that differ in exactly one byte have different checksums |
| Utf8.DecodesIffEncoded | crates/monitor/src/lib.rs:3657-3660 | bytes are read as a text if and only if they are its UTF-8 encoding |
| PersistenceProof.TreeBack | crates/monitor/src/lib.rs:3582-3650 | a condition tree is read back if and only if it nests at most 128 deep below its start |
| PersistenceProof.BreakpointsBack | crates/monitor/src/lib.rs:3894-3909 | breakpoints and their conditions are read back, or refused when a condition is too deep |
| PersistenceFiles.ByteWriter.Tree | crates/monitor/src/lib.rs:3437-3480 | writing appends the tree's encoding |
| PersistenceFiles.ByteReader.Tree | crates/monitor/src/lib.rs:3582-3650 | reading advances over a tree and returns it exactly when the specified reading does |
| PersistenceFiles.Save | crates/monitor/src/lib.rs:353-409 | the writer's calls produce the specified file |
| PersistenceFiles.Load | crates/monitor/src/lib.rs:3841-3978 | the reader's loops compute the specified state or refuse |
| PersistenceFiles.ComputeChecksum | crates/monitor/src/lib.rs:3684-3691 | the loop computes the checksum |
| MonitorTables.ReachableSnapshotBack | crates/monitor/src/lib.rs:353-415 | every monitor that commands can reach is read back whole exactly when it is within the reader's limits |
| MonitorTables.StepKeeps | crates/monitor/src/lib.rs:1199-1338 | every command, reading any file included, leaves conditions only on existing breakpoints |
| MonitorTables.DecodedIsKept | crates/monitor/src/lib.rs:3841-3978 | whatever file is read, the state has conditions only on breakpoints and watchpoints under their numbers |
| MonitorTables.StepKeepsIds | crates/monitor/src/lib.rs:1199-1338 | breakpoint numbers stay distinct and below the next number |
| MonitorTables.DeleteUndoesBreak | crates/monitor/src/lib.rs:1199-1338 | deleting the breakpoint just set leaves every table as before |
| MonitorTables.BreakTakesEffect | crates/monitor/src/lib.rs:1199-1238 | break takes effect exactly at a new aligned address with a condition that parses and a number left; the stored condition has, under any symbols, the value its text has |
| MonitorTables.WatchTakesEffect | crates/monitor/src/lib.rs:1257-1302 | watch sets exactly one new watchpoint, as asked for, when the width is 1, 2, 4 or 8 and a number is left; deleting it takes exactly it away |
| MonitorTables.DeleteTakesEffect | crates/monitor/src/lib.rs:1304-1338 | delete takes away the breakpoint of that number at the lowest address, with its condition, and otherwise changes nothing |
| MonitorTables.NumbersGoOn | crates/monitor/src/lib.rs:1199-1338 | no command but reading a file lowers the next numbers or gives out more than one |
| MonitorTables.Monitor.AddBreakpoint | crates/monitor/src/lib.rs:1199-1238 | the command on the tables leaves the specified state |
| MonitorTables.Monitor.AddWatchpoint | crates/monitor/src/lib.rs:1257-1302 | the command on the tables leaves the specified state |
| MonitorTables.Monitor.Delete | crates/monitor/src/lib.rs:1304-1338 | the command on the tables leaves the specified state |
| MonitorTables.Monitor.RestoreSnapshot | crates/monitor/src/lib.rs:411-431 | the monitor becomes the decoded state, or stays as it was when the file is refused |
| ExactDecimal.ExactNumeralIsExact | crates/floatfmt/src/lib.rs:274-310 | for every sign, significand and exponent the numeral denotes exactly that number, and no digit can be left off |
| ExactDecimal.TextReadsBack | crates/floatfmt/src/lib.rs:274-310 | the text of a numeral reads as that numeral, and has a point exactly when digits follow it |
| ExactDecimal.ScaleValue | crates/floatfmt/src/lib.rs:327-338 | limb by limb multiplication multiplies the number and keeps the top limb nonzero |
| ExactDecimal.PrintedValue | crates/floatfmt/src/lib.rs:340-350 | printing the top limb plainly and the others in nine digits denotes the number, without a leading zero |
| DecimalPrinter.DecimalInteger.MulSmall | crates/floatfmt/src/lib.rs:327-338 | the loops over the limbs multiply the number in place |
| DecimalPrinter.DecimalInteger.ToString | crates/floatfmt/src/lib.rs:340-350 | the loop prints the specified digits |
| DecimalPrinter.ExactBinaryDecimal | crates/floatfmt/src/lib.rs:274-310 | the loops, the point and the trimming produce the specified numeral's text |
| Binary16.FiniteConversionIsCorrect | crates/floatfmt/src/lib.rs:200-245 | every finite binary64 becomes the nearest binary16, ties to even, through carries, subnormal results and overflow; zeros keep their sign |
| Binary16.FiniteIsRounded | crates/floatfmt/src/lib.rs:200-245 | the conversion computes what the simulator's rounding routine computes in binary16 |
| Binary16.SpecialConversionIsCorrect | crates/floatfmt/src/lib.rs:206-214 | infinities, quiet and signalling NaNs keep their kind and sign |
| Binary16.RoundShiftIsRoundBig | crates/floatfmt/src/lib.rs:247-259 | the shift rounds half to even |
| BasicLines.BasicState.Insert | crates/guest-monitor/src/minibasic.rs:155-183 | the slots go on standing for the program, in order; empty text removes, other text replaces, and the two refusals happen exactly when the text is too long or the program is full without the line |
| BasicLines.BasicState.Sort | crates/guest-monitor/src/minibasic.rs:185-196 | the exchange sort puts used slots first, strictly ascending, keeping the program |
| BasicLines.BasicState.Clear | crates/guest-monitor/src/minibasic.rs:142-149 | the program becomes empty |
| BasicLines.BasicState.Apply | crates/guest-monitor/src/minibasic.rs:155-196 | after any sequence of edits the slots stand for the program those edits make |
| BasicLines.BasicState.LineAt | crates/guest-monitor/src/minibasic.rs:151-153 | the used line at a position |
| BasicLines.BasicState.FindLine | crates/guest-monitor/src/minibasic.rs:799-805 | the position of the number among the used lines, or none exactly when the program lacks it |
| BasicLines.BasicState.Goto | crates/guest-monitor/src/minibasic.rs:408-412 | the line found for a number is that line of the program |
| BasicLines.FoundLine | crates/guest-monitor/src/minibasic.rs:799-805 | a found position counts the lines with smaller numbers |
| BasicLines.ProgramSize | crates/guest-monitor/src/minibasic.rs:155-172 | the program has as many lines as there are used slots |
| BasicLines.EditsKeepBounded | crates/guest-monitor/src/minibasic.rs:155-183 | no sequence of edits makes more than 256 lines, an empty line or one longer than 96 bytes |

## Left out

- Machine: integer instructions, loads, stores, float moves and the trace; only addition and conversions of the float unit are modelled.
- Machine: floating-point exponents and the count of instructions are unbounded integers; in the source exponents are `i32`, and those that arise fit.
- Guest monitor: `stepidp`, register edits, `run-at`, the data and assemble commands, payload loading and clearing, launching BASIC, snapshot patches and dumps, and the MMIO and UART drivers.
- Guest monitor: a target that stores into a word carrying a breakpoint; it overwrites the EBREAK and transparency fails.
- GuestRuns.RunIsTransparent: environment calls that stop in the monitor - exit, an unknown service, a write buffer outside RAM, a pc too high to resume behind the call - while something temporary is planted are not events of a run; GuestRuns.TrapKeepsView says these are the only traps that break the invariant, and GuestRuns.StoppedCallForgets what follows.
- GuestRuns.MonitorControlIsClean: the same calls are left out, because the temporary breakpoint stays planted after them.
- Assembler: include loading, tokenizing and operand parsing, source text in the listing, and diagnostics text.
- Assembler: the distance to a label is an unbounded integer where the source subtracts in 128 bits; a distance outside 128 bits is refused in both.
- Macros.InlineIsNaive: comment stripping, the reading of an invocation, argument splitting and textual substitution are parameters, for all of which it holds; the order in which parameters are replaced is not modelled.
- Conditionals: the text-level checks of a macro header are one parameter; duplicates, quota and body checks are modelled.
- Isa: encoders and decoder branches other than BEQ, BNE and JAL; what the decoder tries before them is modelled by its masks.
- Expressions: tokenizing, integer literal syntax and ranges.
- Persistence: project and session files, the file system, and the monitor's history and undo list, which a snapshot drops.
- MonitorTables.StepKeepsIds: reading a file keeps numbers distinct only when the file was saved by such a monitor, because the reader does not check numbers.
- Floatfmt: shortest decimal of binary32 and binary64, which the host library prints, and parsing of literals.
- BASIC: variables, FOR frames, the evaluator and printing.
