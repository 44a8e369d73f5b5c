/** The floating-point instructions of the simulator over its registers: operands are
    unboxed, the rounding mode is static or taken from fcsr, results are boxed, and
    exception flags accumulate. */
module FloatUnit {
  import opened Bytes
  import opened Options
  import opened Powers
  import opened BitOps
  import opened BigUints
  import opened Ieee754
  import opened Rounding
  import opened FloatOps
  import opened FloatIntegers
  import opened FloatRoundTrips
  import SoftFloat

  type Register = r: nat | r < 32
  type Width = w: nat | w == 32 || w == 64 witness 32

  datatype Operation =
    | Add(double: bool, rs2: Register)
    | Narrow
    | Widen
    | ToInteger(fromDouble: bool, signed: bool, bits: Width)
    | FromInteger(toDouble: bool, signedSource: bool, sourceBits: Width)

  datatype Instruction = Instruction(operation: Operation, rd: Register, rs1: Register, rm: nat)

  datatype Unit = Unit(x: seq<Word64>, f: seq<Word64>, fcsr: Word32)

  predicate Valid(u: Unit) { |u.x| == 32 && |u.f| == 32 }

  // ---- boxing ----

  const BOX: nat := 0xffff_ffff_0000_0000
  const DYNAMIC := 7

  function Box(bits: nat): Word64 { BOX + bits % 0x1_0000_0000 }

  /** The single in a register; a register that is not boxed holds the canonical NaN. */
  function Unbox(register: Word64): (bits: nat)
    ensures bits < 0x1_0000_0000
  {
    if register / 0x1_0000_0000 == 0xffff_ffff then register % 0x1_0000_0000 else FORMAT_S.canonicalNan
  }

  function FormatOf(double: bool): (format: BinaryFormat)
    ensures Supported(format)
  {
    if double then FORMAT_D else FORMAT_S
  }

  function Operand(register: Word64, double: bool): nat
  {
    if double then register else Unbox(register)
  }

  function Image(bits: nat, double: bool): Word64
  {
    if double then bits % 0x1_0000_0000_0000_0000 else Box(bits)
  }

  /** The integer an integer register holds, read as 32 or 64 bits, signed or not. */
  function IntegerIn(register: Word64, signed: bool, bits: Width): int
  {
    var raw := if bits == 32 then register % 0x1_0000_0000 else register;
    if signed && raw >= (if bits == 32 then 0x8000_0000 else 0x8000_0000_0000_0000)
    then raw - (if bits == 32 then 0x1_0000_0000 else 0x1_0000_0000_0000_0000) else raw
  }

  function Magnitude64(n: int): Word64
    requires -0x8000_0000_0000_0000 <= n < 0x1_0000_0000_0000_0000
  {
    if n < 0 then -n else n
  }

  // ---- one instruction ----

  function Mode(rm: nat, fcsr: Word32): nat
  {
    if rm == DYNAMIC then BitAnd(Shr(fcsr, 5), 7) else rm
  }

  predicate WritesInteger(operation: Operation) { operation.ToInteger? }

  /** What the instruction computes: the register image and the flags. */
  function Result(i: Instruction, u: Unit, mode: nat): (Word64, nat)
    requires Valid(u)
  {
    match i.operation
    case Add(double, rs2) =>
      var (bits, flags) := AddBinary(Operand(u.f[i.rs1], double), Operand(u.f[rs2], double), FormatOf(double), mode);
      (Image(bits, double), flags)
    case Narrow =>
      var (bits, flags) := ConvertBinary(u.f[i.rs1], FORMAT_D, FORMAT_S, mode);
      (Image(bits, false), flags)
    case Widen =>
      var (bits, flags) := ConvertBinary(Unbox(u.f[i.rs1]), FORMAT_S, FORMAT_D, mode);
      (Image(bits, true), flags)
    case ToInteger(double, signed, bits) =>
      ConvertBinaryToInteger(Operand(u.f[i.rs1], double), FormatOf(double), signed, bits, mode)
    case FromInteger(double, signed, bits) =>
      var n := IntegerIn(u.x[i.rs1], signed, bits);
      var (image, flags) := ConvertIntegerToBinary(n < 0, Magnitude64(n), FormatOf(double), mode);
      (Image(image, double), flags)
  }

  /** A reserved rounding mode traps; x0 is zero afterwards. */
  function Step(i: Instruction, u: Unit): (r: Option<Unit>)
    requires Valid(u)
    ensures r.Some? ==> Valid(r.value)
  {
    var mode := Mode(i.rm, u.fcsr);
    if !ValidRoundingMode(mode) then None
    else
      var (value, flags) := Result(i, u, mode);
      var fcsr: Word32 := BitOr(u.fcsr, flags) % 0x1_0000_0000;
      if !WritesInteger(i.operation) then Some(Unit(u.x[0 := 0], u.f[i.rd := value], fcsr))
      else if i.rd != 0 then Some(Unit(u.x[i.rd := value][0 := 0], u.f, fcsr))
      else Some(Unit(u.x[0 := 0], u.f, fcsr))
  }

  // ---- flags ----

  lemma OperandIsPattern(register: Word64, double: bool)
    ensures IsPattern(Operand(register, double), FormatOf(double))
  {
    Pow2Single();
    Pow2Double();
  }

  lemma DeliveredFlags(x: real, bits: nat, flags: nat, format: BinaryFormat, mode: nat)
    requires Delivers(x, bits, flags, format, mode)
    ensures flags < 32 && IsPattern(bits, format)
  {
    hide Overflows, IsRounding, IsPattern, IsFinite, SignBit, RealValue, Magnitude;
  }

  lemma CanonicalPattern(format: BinaryFormat)
    requires Supported(format)
    ensures IsPattern(format.canonicalNan, format)
  {
    Pow2Single();
    Pow2Double();
  }

  lemma AddFits(left: nat, right: nat, format: BinaryFormat, mode: nat)
    requires Supported(format) && ValidRoundingMode(mode) && IsPattern(left, format) && IsPattern(right, format)
    ensures AddBinary(left, right, format, mode).1 < 32 && IsPattern(AddBinary(left, right, format, mode).0, format)
  {
    hide AddBinary, Delivers, IsPattern, IsNaN, IsInfinite, SignBit, RealValue, IsFinite, Magnitude;
    AddBinaryIsCorrect(left, right, format, mode);
    CanonicalPattern(format);
    var (bits, flags) := AddBinary(left, right, format, mode);
    var sum := RealValue(left, format) + RealValue(right, format);
    if Delivers(sum, bits, flags, format, mode) { DeliveredFlags(sum, bits, flags, format, mode); }
  }

  lemma ConvertFits(value: nat, source: BinaryFormat, destination: BinaryFormat, mode: nat)
    requires Supported(source) && Supported(destination) && ValidRoundingMode(mode) && IsPattern(value, source)
    ensures var (bits, flags) := ConvertBinary(value, source, destination, mode); flags < 32 && IsPattern(bits, destination)
  {
    hide ConvertBinary, Delivers, IsPattern, IsNaN, IsInfinite, SignBit, RealValue, IsFinite, Magnitude;
    ConvertBinaryIsCorrect(value, source, destination, mode);
    CanonicalPattern(destination);
    var (bits, flags) := ConvertBinary(value, source, destination, mode);
    var x := RealValue(value, source);
    if Delivers(x, bits, flags, destination, mode) { DeliveredFlags(x, bits, flags, destination, mode); }
  }

  lemma IntegerFits(negative: bool, magnitude: Word64, destination: BinaryFormat, mode: nat)
    requires Supported(destination) && ValidRoundingMode(mode)
    ensures var (bits, flags) := ConvertIntegerToBinary(negative, magnitude, destination, mode);
            flags < 32 && IsPattern(bits, destination)
  {
    hide ConvertIntegerToBinary, Delivers, IsPattern, SignBit, IsFinite, Magnitude;
    ConvertIntegerIsCorrect(negative, magnitude, destination, mode);
    var (bits, flags) := ConvertIntegerToBinary(negative, magnitude, destination, mode);
    var x := Signed(negative, magnitude) as real;
    if Delivers(x, bits, flags, destination, mode) { DeliveredFlags(x, bits, flags, destination, mode); }
  }

  lemma ToIntegerFlags(value: nat, source: BinaryFormat, signed: bool, bits: Width, mode: nat)
    requires Supported(source) && ValidRoundingMode(mode) && IsPattern(value, source)
    ensures ConvertBinaryToInteger(value, source, signed, bits, mode).1 < 32
  {
    hide ConvertBinaryToInteger, IsPattern, IsNaN, IsInfinite, SignBit, RealValue, IsIntegerRounding;
    var n := ConvertToIntegerIsCorrect(value, source, signed, bits, mode);
  }

  lemma ResultFlags(i: Instruction, u: Unit, mode: nat)
    requires Valid(u) && ValidRoundingMode(mode)
    ensures Result(i, u, mode).1 < 32
  {
    hide AddBinary, ConvertBinary, ConvertBinaryToInteger, ConvertIntegerToBinary, IsPattern, Operand;
    match i.operation {
      case Add(double, rs2) =>
        OperandIsPattern(u.f[i.rs1], double);
        OperandIsPattern(u.f[rs2], double);
        AddFits(Operand(u.f[i.rs1], double), Operand(u.f[rs2], double), FormatOf(double), mode);
      case Narrow =>
        RegisterIsPattern(u.f[i.rs1]);
        ConvertFits(u.f[i.rs1], FORMAT_D, FORMAT_S, mode);
      case Widen =>
        UnboxedIsPattern(u.f[i.rs1]);
        ConvertFits(Unbox(u.f[i.rs1]), FORMAT_S, FORMAT_D, mode);
      case ToInteger(double, signed, bits) =>
        OperandIsPattern(u.f[i.rs1], double);
        ToIntegerFlags(Operand(u.f[i.rs1], double), FormatOf(double), signed, bits, mode);
      case FromInteger(double, signed, bits) =>
        var n := IntegerIn(u.x[i.rs1], signed, bits);
        IntegerFits(n < 0, Magnitude64(n), FormatOf(double), mode);
    }
  }

  lemma RegisterIsPattern(register: Word64)
    ensures IsPattern(register, FORMAT_D)
  {
    OperandIsPattern(register, true);
  }

  lemma UnboxedIsPattern(register: Word64)
    ensures IsPattern(Unbox(register), FORMAT_S)
  {
    OperandIsPattern(register, false);
  }

  /** An executed instruction adds exactly its own flags to fcsr and leaves the rounding mode alone. */
  lemma StepAccumulates(i: Instruction, u: Unit)
    requires Valid(u) && Step(i, u).Some?
    ensures var flags := Result(i, u, Mode(i.rm, u.fcsr)).1;
            && flags < 32
            && forall n: nat :: Bit(Step(i, u).value.fcsr, n) <==> Bit(u.fcsr, n) || Bit(flags, n)
    ensures forall n: nat :: n >= 5 ==> (Bit(Step(i, u).value.fcsr, n) <==> Bit(u.fcsr, n))
  {
    hide Result, BitOr, BitAnd, Bit, Shr, Pow2;
    var flags := Result(i, u, Mode(i.rm, u.fcsr)).1;
    ResultFlags(i, u, Mode(i.rm, u.fcsr));
    Pow2Bytes();
    assert flags < Pow2(32);
    OrBound(u.fcsr, flags, 32);
    forall n: nat ensures Bit(BitOr(u.fcsr, flags), n) <==> Bit(u.fcsr, n) || Bit(flags, n) { OrBit(u.fcsr, flags, n); }
    forall n: nat | n >= 5 ensures !Bit(flags, n) { SmallBits(flags, n); }
  }

  /** The places of the flags in fcsr: inexact, underflow, overflow and invalid are bits 0, 1, 2 and 4. */
  lemma FlagPlaces(n: nat)
    ensures Bit(FFLAG_NX, n) <==> n == 0
    ensures Bit(FFLAG_UF, n) <==> n == 1
    ensures Bit(FFLAG_OF, n) <==> n == 2
    ensures Bit(FFLAG_NV, n) <==> n == 4
  {
    if n >= 5 {
      SmallBits(FFLAG_NX, n);
      SmallBits(FFLAG_UF, n);
      SmallBits(FFLAG_OF, n);
      SmallBits(FFLAG_NV, n);
    } else {
      LowBits(FFLAG_NX, n);
      LowBits(FFLAG_UF, n);
      LowBits(FFLAG_OF, n);
      LowBits(FFLAG_NV, n);
    }
  }

  lemma LowBits(flags: nat, n: nat)
    requires n < 5
    ensures Bit(flags, n) <==> flags / (if n == 0 then 1 else if n == 1 then 2 else if n == 2 then 4 else if n == 3 then 8 else 16) % 2 == 1
  {
    hide Shr;
    ShrSteps(flags);
    ShrSteps(flags / 4);
  }

  lemma ShrSteps(a: nat)
    ensures Shr(a, 0) == a && Shr(a, 1) == a / 2 && Shr(a, 2) == a / 4 && Shr(a, 3) == Shr(a / 4, 1) && Shr(a, 4) == Shr(a / 4, 2)
  {
    ShrAdd(a, 2, 1);
    ShrAdd(a, 2, 2);
    assert Shr(a, 2) == Shr(a / 2, 1);
  }

  lemma SmallBits(flags: nat, n: nat)
    requires flags < 32 && n >= 5
    ensures !Bit(flags, n)
  {
    assert Pow2(5) == 32 by { assert Pow2(3) == 8; }
    Pow2Mono(5, n);
    SmallNumber(flags, n);
  }

  function Run(instructions: seq<Instruction>, u: Unit): (r: Option<Unit>)
    requires Valid(u)
    ensures r.Some? ==> Valid(r.value)
    decreases |instructions|
  {
    if instructions == [] then Some(u)
    else match Step(instructions[0], u) case None => None case Some(v) => Run(instructions[1..], v)
  }

  /** Over any run, no exception flag is ever lowered, the rounding mode stays, and x0 reads zero. */
  lemma {:induction false} RunAccumulates(instructions: seq<Instruction>, u: Unit)
    requires Valid(u) && Run(instructions, u).Some?
    ensures forall n: nat :: Bit(u.fcsr, n) ==> Bit(Run(instructions, u).value.fcsr, n)
    ensures forall n: nat :: n >= 5 ==> (Bit(Run(instructions, u).value.fcsr, n) <==> Bit(u.fcsr, n))
    ensures u.x[0] == 0 || instructions != [] ==> Run(instructions, u).value.x[0] == 0
    decreases |instructions|
  {
    hide Step, Bit;
    if instructions != [] {
      StepAccumulates(instructions[0], u);
      ZeroRegister(instructions[0], u);
      RunAccumulates(instructions[1..], Step(instructions[0], u).value);
    }
  }

  lemma ZeroRegister(i: Instruction, u: Unit)
    requires Valid(u) && Step(i, u).Some?
    ensures Step(i, u).value.x[0] == 0
  {
    hide Result, BitOr;
  }

  // ---- trips through the registers ----

  lemma PatternSizes(bits: nat)
    ensures IsPattern(bits, FORMAT_S) <==> bits < 0x1_0000_0000
    ensures IsPattern(bits, FORMAT_D) <==> bits < 0x1_0000_0000_0000_0000
  {
    Pow2Single();
    Pow2Double();
  }

  lemma NoFlags(fcsr: Word32)
    ensures BitOr(fcsr, 0) % 0x1_0000_0000 == fcsr
  {
    BitOrZero(fcsr);
  }

  /** A boxed single that is not a NaN, widened into any register and narrowed back in any rounding modes, is the
      same register image, and fcsr is untouched. */
  lemma WidenNarrowRegisters(u: Unit, rs: Register, middle: Register, rd: Register, rm: nat, rm': nat)
    requires Valid(u) && ValidRoundingMode(Mode(rm, u.fcsr)) && ValidRoundingMode(Mode(rm', u.fcsr))
    requires u.f[rs] == Box(Unbox(u.f[rs])) && !IsNaN(Unbox(u.f[rs]), FORMAT_S)
    ensures var v := Run([Instruction(Widen, middle, rs, rm), Instruction(Narrow, rd, middle, rm')], u);
            v.Some? && v.value.f[rd] == u.f[rs] && v.value.fcsr == u.fcsr && v.value.x == u.x[0 := 0]
  {
    hide ConvertBinary, IsPattern, IsNaN, Mode, BitOr, Unbox, Box;
    var single := Unbox(u.f[rs]);
    PatternSizes(single);
    WidenThenNarrow(single, Mode(rm, u.fcsr), Mode(rm', u.fcsr));
    var wide := ConvertBinary(single, FORMAT_S, FORMAT_D, Mode(rm, u.fcsr)).0;
    PatternSizes(wide);
    NoFlags(u.fcsr);
    var i, j := Instruction(Widen, middle, rs, rm), Instruction(Narrow, rd, middle, rm');
    var v := Step(i, u).value;
    assert v == Unit(u.x[0 := 0], u.f[middle := wide], u.fcsr);
    assert v.x[0 := 0] == v.x;
    assert Step(j, v) == Some(Unit(u.x[0 := 0], v.f[rd := Box(single)], u.fcsr));
    TwoSteps(i, j, u);
  }

  lemma TwoSteps(i: Instruction, j: Instruction, u: Unit)
    requires Valid(u) && Step(i, u).Some?
    ensures Run([i, j], u) == Step(j, Step(i, u).value)
  {
    hide Step;
    var both := [i, j];
    assert both[1..] == [j] && [j][1..] == [];
    assert Run([j], Step(i, u).value) == Step(j, Step(i, u).value);
  }

  lemma FromIntegerStep(u: Unit, i: Instruction, wide: nat)
    requires Valid(u) && i.operation.FromInteger? && i.operation.toDouble && ValidRoundingMode(Mode(i.rm, u.fcsr))
    requires wide < 0x1_0000_0000_0000_0000
    requires var n := IntegerIn(u.x[i.rs1], i.operation.signedSource, i.operation.sourceBits);
             ConvertIntegerToBinary(n < 0, Magnitude64(n), FORMAT_D, Mode(i.rm, u.fcsr)) == (wide, 0)
    ensures Step(i, u) == Some(u.(x := u.x[0 := 0], f := u.f[i.rd := wide]))
  {
    hide ConvertIntegerToBinary, IntegerIn, Mode, BitOr, Magnitude64;
    NoFlags(u.fcsr);
  }

  lemma ToIntegerStep(u: Unit, j: Instruction, register: Word64)
    requires Valid(u) && j.operation.ToInteger? && j.operation.fromDouble && ValidRoundingMode(Mode(j.rm, u.fcsr)) && j.rd != 0
    requires ConvertBinaryToInteger(u.f[j.rs1], FORMAT_D, j.operation.signed, j.operation.bits, Mode(j.rm, u.fcsr)) == (register, 0)
    ensures Step(j, u) == Some(u.(x := u.x[j.rd := register][0 := 0]))
  {
    hide ConvertBinaryToInteger, Mode, BitOr;
    NoFlags(u.fcsr);
  }

  /** An integer that binary64 holds exactly - every 32-bit one, and 64-bit ones of magnitude at most 2^53 - comes
      back from the trip through a floating-point register, and fcsr is untouched. */
  lemma IntegerTripRegisters(u: Unit, rs: Register, middle: Register, rd: Register, signed: bool, bits: Width, rm: nat, rm': nat)
    requires Valid(u) && ValidRoundingMode(Mode(rm, u.fcsr)) && ValidRoundingMode(Mode(rm', u.fcsr)) && rd != 0
    requires -0x20_0000_0000_0000 <= IntegerIn(u.x[rs], signed, bits) <= 0x20_0000_0000_0000
    ensures var v := Run([Instruction(FromInteger(true, signed, bits), middle, rs, rm),
                          Instruction(ToInteger(true, signed, bits), rd, middle, rm')], u);
            v.Some? && v.value.x[rd] == RegisterImage(IntegerIn(u.x[rs], signed, bits), bits) && v.value.fcsr == u.fcsr
  {
    hide ConvertIntegerToBinary, ConvertBinaryToInteger, IsPattern, Mode, Step, IntegerIn, RegisterImage, ValidRoundingMode, MinInteger, MaxInteger;
    var n := IntegerIn(u.x[rs], signed, bits);
    IntegerRange(u.x[rs], signed, bits);
    IntegerTrip(n, signed, bits, Mode(rm, u.fcsr), Mode(rm', u.fcsr));
    var wide := ConvertIntegerToBinary(n < 0, Magnitude64(n), FORMAT_D, Mode(rm, u.fcsr)).0;
    PatternSizes(wide);
    var i := Instruction(FromInteger(true, signed, bits), middle, rs, rm);
    var j := Instruction(ToInteger(true, signed, bits), rd, middle, rm');
    FromIntegerStep(u, i, wide);
    ToIntegerStep(u.(x := u.x[0 := 0], f := u.f[middle := wide]), j, RegisterImage(n, bits));
    TwoSteps(i, j, u);
  }

  lemma IntegerRange(register: Word64, signed: bool, bits: Width)
    ensures MinInteger(signed, bits) <= IntegerIn(register, signed, bits) <= MaxInteger(signed, bits)
  {
  }

  // ---- what one executed instruction does ----

  /** The rounding mode in force: the instruction's own, or frm, bits 5 to 7 of fcsr, when it asks for that. */
  function ModeInForce(rm: nat, fcsr: Word32): nat
  {
    if rm == 7 then fcsr / 32 % 8 else rm
  }

  lemma ModeIsInForce(rm: nat, fcsr: Word32)
    ensures Mode(rm, fcsr) == ModeInForce(rm, fcsr)
  {
    hide BitAnd, Low;
    assert Shr(fcsr, 5) == fcsr / 2 / 2 / 2 / 2 / 2 == fcsr / 32 by { Shr5(fcsr); }
    AndMask(Shr(fcsr, 5), 3);
    Low3(fcsr / 32);
  }

  lemma Shr5(a: nat)
    ensures Shr(a, 5) == a / 32
  {
    assert Shr(a, 5) == Shr(a / 2, 4) == Shr(a / 4, 3);
    assert Shr(a / 4, 3) == Shr(a / 8, 2) == Shr(a / 16, 1);
  }

  lemma Low3(a: nat)
    ensures Low(a, 3) == a % 8 && Pow2(3) == 8
  {
    assert Low(a / 4, 1) == a / 4 % 2;
    assert Low(a / 2, 2) == 2 * Low(a / 2 / 2, 1) + a / 2 % 2;
    assert Low(a, 3) == 2 * Low(a / 2, 2) + a % 2;
    assert Pow2(2) == 2 * Pow2(1);
  }

  /** An instruction traps exactly when the mode in force is a reserved one. */
  lemma TrapsOnReservedMode(i: Instruction, u: Unit)
    requires Valid(u)
    ensures Step(i, u).None? <==> ModeInForce(i.rm, u.fcsr) > 4
  {
    hide Mode, Result, BitOr;
    ModeIsInForce(i.rm, u.fcsr);
  }

  /** The binary32 a register holds: its lower half when the upper half is all ones, and else the canonical NaN. */
  lemma SingleOperand(register: Word64)
    ensures Unbox(register) == if register >= 0xffff_ffff_0000_0000 then register - 0xffff_ffff_0000_0000 else 0x7fc0_0000
  {
  }

  /** The integer read from a register: the one congruent to it modulo 2^bits in the range of two's complement, or of
      unsigned numbers. */
  lemma IntegerOperand(register: Word64, signed: bool, bits: Width)
    ensures var n := IntegerIn(register, signed, bits);
            && (n - register) % (if bits == 32 then 0x1_0000_0000 else 0x1_0000_0000_0000_0000) == 0
            && MinInteger(signed, bits) <= n <= MaxInteger(signed, bits)
  {
  }

  /** The only effect of an executed instruction that writes a floating-point register. */
  ghost predicate WritesFloat(i: Instruction, u: Unit, v: Unit, bits: nat, double: bool, flags: nat)
    requires Valid(u) && Valid(v)
  {
    && (double || bits < 0x1_0000_0000)
    && v.f[i.rd] == (if double then bits else 0xffff_ffff_0000_0000 + bits)
    && (forall r: Register :: r != i.rd ==> v.f[r] == u.f[r])
    && v.fcsr == BitOr(u.fcsr, flags)
    && v.x[0] == 0 && forall r: Register :: r > 0 ==> v.x[r] == u.x[r]
  }

  /** And of one that writes an integer register. */
  ghost predicate WritesRegister(i: Instruction, u: Unit, v: Unit, register: Word64, flags: nat)
    requires Valid(u) && Valid(v)
  {
    && v.x[0] == 0 && (i.rd != 0 ==> v.x[i.rd] == register)
    && (forall r: Register :: r != i.rd && r > 0 ==> v.x[r] == u.x[r])
    && v.fcsr == BitOr(u.fcsr, flags) && v.f == u.f
  }

  lemma FloatWritten(i: Instruction, u: Unit, bits: nat, flags: nat, double: bool)
    requires Valid(u) && Step(i, u).Some? && !i.operation.ToInteger? && flags < 32 && IsPattern(bits, FormatOf(double))
    requires Result(i, u, ModeInForce(i.rm, u.fcsr)) == (Image(bits, double), flags)
    ensures WritesFloat(i, u, Step(i, u).value, bits, double, flags)
  {
    hide Mode, Result, BitOr, IsPattern, Pow2;
    ModeIsInForce(i.rm, u.fcsr);
    PatternSizes(bits);
    Pow2Bytes();
    OrBound(u.fcsr, flags, 32);
  }

  /** An executed addition writes what addition delivers for its unboxed operands - NaNs, infinities and signed zeros
      included - in the mode in force. */
  lemma AddStepIsCorrect(i: Instruction, u: Unit) returns (bits: nat, flags: nat)
    requires Valid(u) && i.operation.Add? && Step(i, u).Some?
    ensures var double := i.operation.double;
            var mode := if i.rm == 7 then u.fcsr / 32 % 8 else i.rm;
            && IsSum(Operand(u.f[i.rs1], double), Operand(u.f[i.operation.rs2], double), bits, flags, FormatOf(double), mode)
            && WritesFloat(i, u, Step(i, u).value, bits, double, flags)
  {
    hide AddBinary, IsSum, IsPattern, BitOr, Mode, Pow2, Unbox, Image, WritesFloat;
    var double := i.operation.double;
    var format := FormatOf(double);
    var left, right := Operand(u.f[i.rs1], double), Operand(u.f[i.operation.rs2], double);
    var mode := ModeInForce(i.rm, u.fcsr);
    ModeIsInForce(i.rm, u.fcsr);
    OperandIsPattern(u.f[i.rs1], double);
    OperandIsPattern(u.f[i.operation.rs2], double);
    AddBinaryIsCorrect(left, right, format, mode);
    AddFits(left, right, format, mode);
    bits, flags := AddBinary(left, right, format, mode).0, AddBinary(left, right, format, mode).1;
    FloatWritten(i, u, bits, flags, double);
  }

  /** FCVT.S.D writes its operand's number converted in the mode in force. */
  lemma NarrowStepIsCorrect(i: Instruction, u: Unit) returns (bits: nat, flags: nat)
    requires Valid(u) && i.operation.Narrow? && Step(i, u).Some?
    ensures var mode := if i.rm == 7 then u.fcsr / 32 % 8 else i.rm;
            && IsConverted(u.f[i.rs1], FORMAT_D, bits, flags, FORMAT_S, mode)
            && WritesFloat(i, u, Step(i, u).value, bits, false, flags)
  {
    hide ConvertBinary, IsConverted, IsPattern, BitOr, Mode, Pow2, Image, WritesFloat;
    var mode := ModeInForce(i.rm, u.fcsr);
    ModeIsInForce(i.rm, u.fcsr);
    RegisterIsPattern(u.f[i.rs1]);
    ConvertBinaryIsCorrect(u.f[i.rs1], FORMAT_D, FORMAT_S, mode);
    ConvertFits(u.f[i.rs1], FORMAT_D, FORMAT_S, mode);
    bits, flags := ConvertBinary(u.f[i.rs1], FORMAT_D, FORMAT_S, mode).0, ConvertBinary(u.f[i.rs1], FORMAT_D, FORMAT_S, mode).1;
    FloatWritten(i, u, bits, flags, false);
  }

  /** FCVT.D.S writes its unboxed operand's number. */
  lemma WidenStepIsCorrect(i: Instruction, u: Unit) returns (bits: nat, flags: nat)
    requires Valid(u) && i.operation.Widen? && Step(i, u).Some?
    ensures var mode := if i.rm == 7 then u.fcsr / 32 % 8 else i.rm;
            && IsConverted(Unbox(u.f[i.rs1]), FORMAT_S, bits, flags, FORMAT_D, mode)
            && WritesFloat(i, u, Step(i, u).value, bits, true, flags)
  {
    hide ConvertBinary, IsConverted, IsPattern, BitOr, Mode, Pow2, Image, Unbox, WritesFloat;
    var mode := ModeInForce(i.rm, u.fcsr);
    var single := Unbox(u.f[i.rs1]);
    ModeIsInForce(i.rm, u.fcsr);
    UnboxedIsPattern(u.f[i.rs1]);
    ConvertBinaryIsCorrect(single, FORMAT_S, FORMAT_D, mode);
    ConvertFits(single, FORMAT_S, FORMAT_D, mode);
    bits, flags := ConvertBinary(single, FORMAT_S, FORMAT_D, mode).0, ConvertBinary(single, FORMAT_S, FORMAT_D, mode).1;
    FloatWritten(i, u, bits, flags, true);
  }

  /** FCVT to W, WU, L or LU writes its operand's number rounded to an integer in the mode in force, or saturated. */
  lemma ToIntegerStepIsCorrect(i: Instruction, u: Unit) returns (n: int, register: Word64, flags: nat)
    requires Valid(u) && i.operation.ToInteger? && Step(i, u).Some?
    ensures var mode := if i.rm == 7 then u.fcsr / 32 % 8 else i.rm;
            var double := i.operation.fromDouble;
            && IsToInteger(Operand(u.f[i.rs1], double), FormatOf(double), n, register, flags,
                           i.operation.signed, i.operation.bits, mode)
            && WritesRegister(i, u, Step(i, u).value, register, flags)
  {
    hide ConvertBinaryToInteger, IsToInteger, IsPattern, BitOr, Mode, Pow2, Unbox;
    var mode := ModeInForce(i.rm, u.fcsr);
    var double := i.operation.fromDouble;
    var value := Operand(u.f[i.rs1], double);
    ModeIsInForce(i.rm, u.fcsr);
    OperandIsPattern(u.f[i.rs1], double);
    n := ConvertToIntegerIsCorrect(value, FormatOf(double), i.operation.signed, i.operation.bits, mode);
    ToIntegerFlags(value, FormatOf(double), i.operation.signed, i.operation.bits, mode);
    var result := ConvertBinaryToInteger(value, FormatOf(double), i.operation.signed, i.operation.bits, mode);
    register, flags := result.0, result.1;
    Pow2Bytes();
    OrBound(u.fcsr, flags, 32);
  }

  /** FCVT from W, WU, L or LU writes the integer its register holds as a number in the mode in force. */
  lemma FromIntegerStepIsCorrect(i: Instruction, u: Unit) returns (bits: nat, flags: nat)
    requires Valid(u) && i.operation.FromInteger? && Step(i, u).Some?
    ensures var mode := if i.rm == 7 then u.fcsr / 32 % 8 else i.rm;
            var double := i.operation.toDouble;
            && IsFromInteger(IntegerIn(u.x[i.rs1], i.operation.signedSource, i.operation.sourceBits), bits, flags,
                             FormatOf(double), mode)
            && WritesFloat(i, u, Step(i, u).value, bits, double, flags)
  {
    hide ConvertIntegerToBinary, IsFromInteger, IsPattern, BitOr, Mode, Pow2, Image, IntegerIn, WritesFloat;
    var mode := ModeInForce(i.rm, u.fcsr);
    var format := FormatOf(i.operation.toDouble);
    var n := IntegerIn(u.x[i.rs1], i.operation.signedSource, i.operation.sourceBits);
    ModeIsInForce(i.rm, u.fcsr);
    IntegerRange(u.x[i.rs1], i.operation.signedSource, i.operation.sourceBits);
    ConvertIntegerIsCorrect(n < 0, Magnitude64(n), format, mode);
    IntegerFits(n < 0, Magnitude64(n), format, mode);
    var result := ConvertIntegerToBinary(n < 0, Magnitude64(n), format, mode);
    bits, flags := result.0, result.1;
    FloatWritten(i, u, bits, flags, i.operation.toDouble);
  }

  // ---- the machine's registers ----

  class Machine {
    var x: seq<Word64>
    var f: seq<Word64>
    var fcsr: Word32
    var pc: Word64
    var instructions: nat

    function State(): Unit
      reads this
    {
      Unit(x, f, fcsr)
    }

    constructor ()
      ensures Valid(State()) && fcsr == 0 && pc == 0 && instructions == 0
    {
      x, f, fcsr, pc, instructions := seq(32, i => 0), seq(32, i => BOX), 0, 0, 0;
    }

    /** Executes one instruction on limbs. A reserved rounding mode changes nothing; a pc that cannot advance fails
        after the registers have been written, and is not counted. */
    method Execute(i: Instruction) returns (ok: bool)
      requires Valid(State())
      modifies this
      ensures ok == (Step(i, old(State())).Some? && old(pc) + 4 < 0x1_0000_0000_0000_0000)
      ensures Valid(State())
      ensures State() == if Step(i, old(State())).Some? then Step(i, old(State())).value else old(State())
      ensures pc == (if ok then old(pc) + 4 else old(pc))
      ensures instructions == (if ok then old(instructions) + 1 else old(instructions))
    {
      hide AddBinary, ConvertBinary, ConvertBinaryToInteger, ConvertIntegerToBinary, IsPattern, BitOr, BitAnd, Operand;
      var mode := Mode(i.rm, fcsr);
      if !ValidRoundingMode(mode) { return false; }
      var value, flags := Compute(i, mode);
      if WritesInteger(i.operation) {
        if i.rd != 0 { x := x[i.rd := value]; }
      } else {
        f := f[i.rd := value];
      }
      fcsr := BitOr(fcsr, flags) % 0x1_0000_0000;
      x := x[0 := 0];
      if pc + 4 >= 0x1_0000_0000_0000_0000 { return false; }
      pc := pc + 4;
      instructions := instructions + 1;
      return true;
    }

    method Compute(i: Instruction, mode: nat) returns (value: Word64, flags: nat)
      requires Valid(State())
      ensures (value, flags) == Result(i, State(), mode)
    {
      hide AddBinary, ConvertBinary, ConvertBinaryToInteger, ConvertIntegerToBinary, IsPattern, Operand;
      var bits: nat;
      match i.operation {
        case Add(double, rs2) =>
          OperandIsPattern(f[i.rs1], double);
          OperandIsPattern(f[rs2], double);
          bits, flags := SoftFloat.AddBinaryLimbs(Operand(f[i.rs1], double), Operand(f[rs2], double), FormatOf(double), mode);
          value := Image(bits, double);
        case Narrow =>
          RegisterIsPattern(f[i.rs1]);
          bits, flags := SoftFloat.ConvertBinaryLimbs(f[i.rs1], FORMAT_D, FORMAT_S, mode);
          value := Image(bits, false);
        case Widen =>
          UnboxedIsPattern(f[i.rs1]);
          bits, flags := SoftFloat.ConvertBinaryLimbs(Unbox(f[i.rs1]), FORMAT_S, FORMAT_D, mode);
          value := Image(bits, true);
        case ToInteger(double, signed, width) =>
          OperandIsPattern(f[i.rs1], double);
          value, flags := SoftFloat.ConvertToIntegerLimbs(Operand(f[i.rs1], double), FormatOf(double), signed, width, mode);
        case FromInteger(double, signed, width) =>
          var n := IntegerIn(x[i.rs1], signed, width);
          bits, flags := SoftFloat.ConvertIntegerLimbs(n < 0, Magnitude64(n), FormatOf(double), mode);
          value := Image(bits, double);
      }
    }
  }
}
