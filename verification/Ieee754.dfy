/** The binary interchange formats of the simulator and of its number formatter, what a bit
    pattern denotes (section 3.4 of IEEE 754-2019), and what it means to deliver a real
    number correctly rounded (sections 4.3, 7.4 and 7.6), with underflow by the rule of the
    simulator's rounding routine; `Tininess` compares that rule with section 7.5. */
module Ieee754 {
  import opened Powers
  import opened BitOps

  datatype BinaryFormat = BinaryFormat(
    fractionBits: nat, precision: nat, bias: int,
    exponentMask: nat, signMask: nat, quietNanMask: nat, canonicalNan: nat)

  const FORMAT_S := BinaryFormat(23, 24, 127, 0x7f80_0000, 0x8000_0000, 0x0040_0000, 0x7fc0_0000)

  const FORMAT_D := BinaryFormat(52, 53, 1023,
    0x7ff0_0000_0000_0000, 0x8000_0000_0000_0000, 0x0008_0000_0000_0000, 0x7ff8_0000_0000_0000)

  const FORMAT_H := BinaryFormat(10, 11, 15, 0x7c00, 0x8000, 0x200, 0x7e00)

  /** The formats the simulator computes in. */
  predicate Supported(format: BinaryFormat)
  {
    format == FORMAT_S || format == FORMAT_D
  }

  predicate Known(format: BinaryFormat)
  {
    format == FORMAT_S || format == FORMAT_D || format == FORMAT_H
  }

  lemma SupportedIsKnown()
    ensures forall format :: Supported(format) ==> Known(format)
  {
  }

  const ROUND_RNE := 0
  const ROUND_RTZ := 1
  const ROUND_RDN := 2
  const ROUND_RUP := 3
  const ROUND_RMM := 4

  const FFLAG_NX := 1
  const FFLAG_UF := 2
  const FFLAG_OF := 4
  const FFLAG_NV := 16

  // ---- the fields of a bit pattern ----

  function ExponentBits(format: BinaryFormat): nat
  {
    if format == FORMAT_S then 8 else if format == FORMAT_H then 5 else 11
  }

  /** All the masks and the bias follow from the two field widths. */
  lemma FormatShape(format: BinaryFormat)
    requires Known(format)
    ensures var f, e := format.fractionBits, ExponentBits(format);
            && 10 <= f <= 52 && 5 <= e <= 11 && f + e + 1 <= 64
            && format.precision == f + 1
            && format.bias == Pow2(e - 1) - 1 >= 15
            && (Supported(format) ==> 23 <= f && 8 <= e && format.bias >= 127)
            && format.exponentMask == Shl(Pow2(e) - 1, f)
            && format.signMask == Pow2(f + e)
            && format.quietNanMask == Pow2(f - 1)
            && format.canonicalNan == Shl(Pow2(e) - 1, f) + Pow2(f - 1)
  {
    ShlIsProduct(Pow2(8) - 1, 23);
    ShlIsProduct(Pow2(11) - 1, 52);
    ShlIsProduct(Pow2(5) - 1, 10);
    Pow2Single();
    Pow2Double();
  }

  predicate IsPattern(bits: nat, format: BinaryFormat)
  {
    bits < Pow2(format.fractionBits + ExponentBits(format) + 1)
  }

  predicate SignBit(bits: nat, format: BinaryFormat)
  {
    Bit(bits, format.fractionBits + ExponentBits(format))
  }

  function ExponentField(bits: nat, format: BinaryFormat): nat
  {
    Low(Shr(bits, format.fractionBits), ExponentBits(format))
  }

  function Fraction(bits: nat, format: BinaryFormat): nat
  {
    Low(bits, format.fractionBits)
  }

  predicate IsFinite(bits: nat, format: BinaryFormat)
  {
    ExponentField(bits, format) != Pow2(ExponentBits(format)) - 1
  }

  predicate IsInfinite(bits: nat, format: BinaryFormat)
  {
    !IsFinite(bits, format) && Fraction(bits, format) == 0
  }

  predicate IsNaN(bits: nat, format: BinaryFormat)
  {
    !IsFinite(bits, format) && Fraction(bits, format) != 0
  }

  predicate IsSignalingNaN(bits: nat, format: BinaryFormat)
    requires Known(format)
  {
    IsNaN(bits, format) && !Bit(bits, format.fractionBits - 1)
  }

  // ---- the number a finite pattern denotes ----

  function Significand(bits: nat, format: BinaryFormat): nat
  {
    if ExponentField(bits, format) == 0 then Fraction(bits, format)
    else Pow2(format.fractionBits) + Fraction(bits, format)
  }

  function QuantumExponent(bits: nat, format: BinaryFormat): int
  {
    (if ExponentField(bits, format) == 0 then 1 else ExponentField(bits, format))
    - format.bias - format.fractionBits
  }

  ghost function Magnitude(bits: nat, format: BinaryFormat): real
  {
    Dyadic(Significand(bits, format), QuantumExponent(bits, format))
  }

  ghost function RealValue(bits: nat, format: BinaryFormat): real
  {
    if SignBit(bits, format) then -Magnitude(bits, format) else Magnitude(bits, format)
  }

  function LeastQuantum(format: BinaryFormat): int
  {
    1 - format.bias - format.fractionBits
  }

  // ---- correct rounding ----

  ghost function Abs(x: real): real
  {
    if x < 0.0 then -x else x
  }

  ghost predicate FinitePattern(bits: nat, format: BinaryFormat)
  {
    IsPattern(bits, format) && IsFinite(bits, format)
  }

  /** No number of the format is nearer to x. */
  ghost predicate Nearest(x: real, bits: nat, format: BinaryFormat)
  {
    forall b :: FinitePattern(b, format) ==>
      Abs(x - RealValue(bits, format)) <= Abs(x - RealValue(b, format))
  }

  /** Another number of the format is exactly as near. */
  ghost predicate Tied(x: real, bits: nat, b: nat, format: BinaryFormat)
  {
    FinitePattern(b, format)
    && RealValue(b, format) != RealValue(bits, format)
    && Abs(x - RealValue(b, format)) == Abs(x - RealValue(bits, format))
  }

  /** The finite pattern `bits` is x rounded in the given mode (section 4.3). */
  ghost predicate IsRounding(x: real, bits: nat, format: BinaryFormat, mode: nat)
  {
    var v := RealValue(bits, format);
    match mode
    case 0 => Nearest(x, bits, format) && forall b :: Tied(x, bits, b, format) ==> bits % 2 == 0
    case 1 => Abs(v) <= Abs(x)
      && forall b :: FinitePattern(b, format) && Abs(RealValue(b, format)) <= Abs(x) ==>
           Abs(x - v) <= Abs(x - RealValue(b, format))
    case 2 => v <= x
      && forall b :: FinitePattern(b, format) && RealValue(b, format) <= x ==> RealValue(b, format) <= v
    case 3 => x <= v
      && forall b :: FinitePattern(b, format) && x <= RealValue(b, format) ==> v <= RealValue(b, format)
    case 4 => Nearest(x, bits, format)
      && forall b :: Tied(x, bits, b, format) ==> Abs(RealValue(b, format)) <= Abs(v)
    case _ => false
  }

  ghost function MaxFinite(format: BinaryFormat): real
  {
    Dyadic(Pow2(format.fractionBits + 1) - 1, format.bias - format.fractionBits)
  }

  ghost function MinNormal(format: BinaryFormat): real
  {
    Dyadic(Pow2(format.fractionBits), LeastQuantum(format))
  }

  /** Modes that round this sign away from zero. */
  predicate RoundsAway(negative: bool, mode: nat)
  {
    (mode == ROUND_RDN && negative) || (mode == ROUND_RUP && !negative)
  }

  /** x, rounded with an unbounded exponent range, exceeds the largest finite number:
      for the nearest modes from 2^emax * (2 - 2^-p) up (section 4.3.1). */
  ghost predicate Overflows(x: real, format: BinaryFormat, mode: nat)
  {
    if mode == ROUND_RNE || mode == ROUND_RMM then
      Abs(x) >= Dyadic(Pow2(format.fractionBits + 2) - 1, format.bias - format.fractionBits - 1)
    else if RoundsAway(x < 0.0, mode) then Abs(x) > MaxFinite(format)
    else Abs(x) >= Dyadic(1, format.bias + 1)
  }

  /** What overflow delivers: an infinity, or the largest finite number when rounding toward zero
      (section 7.4). */
  ghost predicate IsOverflowResult(negative: bool, bits: nat, format: BinaryFormat, mode: nat)
  {
    IsPattern(bits, format)
    && SignBit(bits, format) == negative
    && if mode == ROUND_RNE || mode == ROUND_RMM || RoundsAway(negative, mode) then
         IsInfinite(bits, format)
       else IsFinite(bits, format) && Magnitude(bits, format) == MaxFinite(format)
  }

  /** The nonzero real x, delivered in the format with exactly the routine's flags. Underflow is raised
      when the delivered number is below the normal range and inexact. */
  ghost predicate Delivers(x: real, bits: nat, flags: nat, format: BinaryFormat, mode: nat)
  {
    if Overflows(x, format, mode) then
      IsOverflowResult(x < 0.0, bits, format, mode) && flags == FFLAG_OF + FFLAG_NX
    else
      FinitePattern(bits, format)
      && SignBit(bits, format) == (x < 0.0)
      && IsRounding(x, bits, format, mode)
      && flags == if RealValue(bits, format) == x then 0
                  else if Magnitude(bits, format) < MinNormal(format) then FFLAG_UF + FFLAG_NX
                  else FFLAG_NX
  }

  // ---- assembling and taking apart patterns ----

  /** The pattern with the given fields. */
  function Pack(negative: bool, field: nat, fraction: nat, format: BinaryFormat): nat
  {
    (if negative then Pow2(format.fractionBits + ExponentBits(format)) else 0)
    + Shl(field, format.fractionBits) + fraction
  }

  lemma UnpackPack(negative: bool, field: nat, fraction: nat, format: BinaryFormat)
    requires Known(format)
    requires field < Pow2(ExponentBits(format)) && fraction < Pow2(format.fractionBits)
    ensures var bits := Pack(negative, field, fraction, format);
            && IsPattern(bits, format)
            && SignBit(bits, format) == negative
            && ExponentField(bits, format) == field
            && Fraction(bits, format) == fraction
            && bits % 2 == fraction % 2
  {
    hide Shl, Pow2, Low, Shr, Known;
    FormatShape(format);
    UnpackFields(if negative then 1 else 0, field, fraction, format.fractionBits, ExponentBits(format));
    ShlOne(format.fractionBits + ExponentBits(format));
  }

  lemma UnpackFields(s: nat, field: nat, fraction: nat, f: nat, e: nat)
    requires s <= 1 && field < Pow2(e) && fraction < Pow2(f) && f > 0
    ensures var bits := Shl(s, f + e) + Shl(field, f) + fraction;
            && bits < Pow2(f + e + 1)
            && Shr(bits, f + e) == s
            && Low(Shr(bits, f), e) == field
            && Low(bits, f) == fraction
            && bits % 2 == fraction % 2
  {
    hide Pow2, Low, Shr, Shl;
    var top := Shl(s, e) + field;
    var bits := Shl(s, f + e) + Shl(field, f) + fraction;
    ShlAdd(s, e, f);
    assert f + e == e + f;
    ShlSum(Shl(s, e), field, f);
    DivideUnique(bits, f, top, fraction);
    DivideUnique(top, e, s, field);
    ShrAdd(bits, f, e);
    ShlMono(s, 1, f + e);
    ShlOne(f + e);
    Divide(bits, f + e);
    Pow2Next(f + e);
    ShlEven(field, f);
    ShlEven(s, f + e);
  }

  lemma ShlEven(a: nat, n: nat)
    requires n > 0
    ensures Shl(a, n) % 2 == 0
  {
    assert Shl(a, n) == 2 * Shl(a, n - 1);
  }

  /** A pattern is determined by its fields. */
  lemma PackUnpack(bits: nat, format: BinaryFormat)
    requires Known(format) && IsPattern(bits, format)
    ensures ExponentField(bits, format) < Pow2(ExponentBits(format))
    ensures Fraction(bits, format) < Pow2(format.fractionBits)
    ensures bits == Pack(SignBit(bits, format), ExponentField(bits, format), Fraction(bits, format), format)
  {
    hide Shl, Pow2, Low, Shr, Known;
    FormatShape(format);
    RepackFields(bits, format.fractionBits, ExponentBits(format));
  }

  lemma RepackFields(bits: nat, f: nat, e: nat)
    requires bits < Pow2(f + e + 1)
    ensures Low(Shr(bits, f), e) < Pow2(e) && Low(bits, f) < Pow2(f)
    ensures bits == (if Bit(bits, f + e) then Pow2(f + e) else 0) + Shl(Low(Shr(bits, f), e), f) + Low(bits, f)
  {
    hide Shl, Low, Shr;
    var top := Shr(bits, f);
    Divide(bits, f);
    Divide(top, e);
    ShrAdd(bits, f, e);
    Pow2Shl(1, f + e);
    ShrBounds(bits, f + e, 2);
    ShlSum(Shl(Shr(top, e), e), Low(top, e), f);
    ShlAdd(Shr(top, e), e, f);
    ShlOne(f + e);
    assert e + f == f + e;
    ZeroBits(f + e);
  }

  /** Sizes of the parts of a finite pattern. */
  lemma FiniteParts(bits: nat, format: BinaryFormat)
    requires Known(format) && FinitePattern(bits, format)
    ensures Significand(bits, format) < Pow2(format.fractionBits + 1)
    ensures LeastQuantum(format) <= QuantumExponent(bits, format) <= format.bias - format.fractionBits
  {
    FormatShape(format);
    PackUnpack(bits, format);
  }

  /** Two patterns denoting the same number with the same sign are the same pattern. */
  lemma PatternUnique(a: nat, b: nat, format: BinaryFormat)
    requires Known(format) && FinitePattern(a, format) && FinitePattern(b, format)
    requires SignBit(a, format) == SignBit(b, format) && Magnitude(a, format) == Magnitude(b, format)
    ensures a == b
  {
    PackUnpack(a, format);
    PackUnpack(b, format);
    FormatShape(format);
    FiniteParts(a, format);
    FiniteParts(b, format);
    if QuantumExponent(a, format) < QuantumExponent(b, format) {
      NoSharedMagnitude(a, b, format);
    } else if QuantumExponent(b, format) < QuantumExponent(a, format) {
      NoSharedMagnitude(b, a, format);
    } else {
      DyadicOrder(Significand(a, format), Significand(b, format), QuantumExponent(a, format));
    }
  }

  lemma NoSharedMagnitude(a: nat, b: nat, format: BinaryFormat)
    requires Known(format) && FinitePattern(a, format) && FinitePattern(b, format)
    requires QuantumExponent(a, format) < QuantumExponent(b, format)
    ensures Magnitude(a, format) < Magnitude(b, format)
  {
    FormatShape(format);
    FiniteParts(a, format);
    FiniteParts(b, format);
    BelowBinade(Significand(a, format), QuantumExponent(a, format),
                Significand(b, format), QuantumExponent(b, format), format.fractionBits);
  }

  /** Fewer than f + 2 bits at a smaller quantum stay below any f + 1 bits at a larger one. */
  lemma BelowBinade(k: nat, j: int, h: nat, q: int, f: nat)
    requires k < Pow2(f + 1) && j < q && Pow2(f) <= h
    ensures Dyadic(k, j) < Dyadic(h, q)
  {
    var n := q - j;
    DyadicShl(h, n, j);
    ShlMono(Pow2(f), h, n);
    Pow2Shl(f, n);
    Pow2Mono(f + 1, f + n);
    DyadicOrder(k, Shl(h, n), j);
  }
}
