/** Addition and the conversions of the simulator, on bit patterns: the code on
    the naturals its limbs denote, and what IEEE 754-2019 and sections 11 and 12
    of the RISC-V Unprivileged ISA 20191213 require of it. */
module FloatOps {
  import opened Bytes
  import opened Powers
  import opened BitOps
  import opened BigUints
  import opened Ieee754
  import opened Rounding
  import opened RoundingProof

  // ---- the code ----

  predicate IsNanBinary(value: nat, format: BinaryFormat)
  {
    BitAnd(value, format.exponentMask) == format.exponentMask
    && BitAnd(value, Pow2(format.fractionBits) - 1) != 0
  }

  predicate IsSignalingNanBinary(value: nat, format: BinaryFormat)
  {
    IsNanBinary(value, format) && BitAnd(value, format.quietNanMask) == 0
  }

  predicate IsInfiniteBinary(value: nat, format: BinaryFormat)
  {
    BitAnd(value, BitOr(format.exponentMask, Pow2(format.fractionBits) - 1)) == format.exponentMask
  }

  function FiniteComponents(value: nat, format: BinaryFormat): (nat, int)
  {
    var fraction := BitAnd(value, Pow2(format.fractionBits) - 1);
    var exponentField := Shr(BitAnd(value, format.exponentMask), format.fractionBits);
    if exponentField == 0 then (fraction, 1 - format.bias - format.fractionBits)
    else (BitOr(Shl(1, format.fractionBits), fraction), exponentField - format.bias - format.fractionBits)
  }

  function ConvertBinary(value: nat, source: BinaryFormat, destination: BinaryFormat, mode: nat): (nat, nat)
    requires Supported(source) && Supported(destination)
  {
    if IsNanBinary(value, source) then
      (destination.canonicalNan, if IsSignalingNanBinary(value, source) then FFLAG_NV else 0)
    else if IsInfiniteBinary(value, source) then
      (if BitAnd(value, source.signMask) != 0 then BitOr(destination.signMask, destination.exponentMask)
       else destination.exponentMask, 0)
    else
      var negative := BitAnd(value, source.signMask) != 0;
      var (significand, exponent) := FiniteComponents(value, source);
      RoundBinary(significand, exponent, negative, destination, mode)
  }

  function ConvertIntegerToBinary(negative: bool, magnitude: Word64, destination: BinaryFormat, mode: nat): (nat, nat)
    requires Supported(destination)
  {
    RoundBinary(magnitude, 0, negative && magnitude != 0, destination, mode)
  }

  function SignExtend32(value: nat): Word64
    requires value < 0x1_0000_0000
  {
    if value >= 0x8000_0000 then value + 0xffff_ffff_0000_0000 else value
  }

  /** Two's complement in 64 bits. */
  function WrappingNegate(value: int): Word64
  {
    -value % 0x1_0000_0000_0000_0000
  }

  function InvalidIntegerResult(signed: bool, negative: bool, bits: nat): Word64
  {
    if bits == 32 then
      if signed && negative then SignExtend32(0x8000_0000)
      else if signed then SignExtend32(0x7fff_ffff)
      else if negative then 0
      else SignExtend32(0xffff_ffff)
    else if signed && negative then 0x8000_0000_0000_0000
    else if signed then 0x7fff_ffff_ffff_ffff
    else if negative then 0
    else 0xffff_ffff_ffff_ffff
  }

  /** The last part of the conversion: range check and register image. */
  function PlaceInteger(magnitude: nat, inexact: bool, negative: bool, signed: bool, bits: nat): (Word64, nat)
  {
    var maxPositive := if bits == 32 then 0x7fff_ffff else 0x7fff_ffff_ffff_ffff;
    var minMagnitude := if bits == 32 then 0x8000_0000 else 0x8000_0000_0000_0000;
    var maxUnsigned := if bits == 32 then 0xffff_ffff else 0xffff_ffff_ffff_ffff;
    var invalid :=
      if signed then
        if negative then Compare(magnitude, minMagnitude) == Greater else Compare(magnitude, maxPositive) == Greater
      else (negative && magnitude != 0) || Compare(magnitude, maxUnsigned) == Greater;
    if invalid then (InvalidIntegerResult(signed, negative, bits), FFLAG_NV)
    else
      var low: nat := magnitude % 0x1_0000_0000_0000_0000;
      var raw: nat := if signed && negative then WrappingNegate(low) else low;
      (if bits == 32 then SignExtend32(raw % 0x1_0000_0000) else raw, if inexact then FFLAG_NX else 0)
  }

  /** The magnitude as an integer, rounded when the exponent is negative. */
  function IntegerMagnitude(significand: nat, exponent: int, negative: bool, mode: nat): (nat, bool)
  {
    if exponent >= 0 then (Shl(significand, exponent), false)
    else RoundBig(significand, -exponent, negative, mode)
  }

  function ConvertBinaryToInteger(value: nat, source: BinaryFormat, signed: bool, bits: nat, mode: nat): (Word64, nat)
    requires Supported(source)
  {
    var negative := BitAnd(value, source.signMask) != 0;
    if IsNanBinary(value, source) || IsInfiniteBinary(value, source) then
      (InvalidIntegerResult(signed, negative, bits), FFLAG_NV)
    else
      var (significand, exponent) := FiniteComponents(value, source);
      var (magnitude, inexact) := IntegerMagnitude(significand, exponent, negative, mode);
      PlaceInteger(magnitude, inexact, negative, signed, bits)
  }

  /** Sign and magnitude of the sum of two aligned magnitudes. */
  function SumMagnitudes(left: nat, leftSign: bool, right: nat, rightSign: bool, mode: nat): (bool, nat)
  {
    if leftSign == rightSign then (leftSign, left + right)
    else match Compare(left, right)
      case Greater => (leftSign, left - right)
      case Less => (rightSign, right - left)
      case Equal => (mode == ROUND_RDN, 0)
  }

  function AddBinary(left: nat, right: nat, format: BinaryFormat, mode: nat): (nat, nat)
    requires Supported(format)
  {
    var leftNan, rightNan := IsNanBinary(left, format), IsNanBinary(right, format);
    if (leftNan && IsSignalingNanBinary(left, format)) || (rightNan && IsSignalingNanBinary(right, format)) then
      (format.canonicalNan, FFLAG_NV)
    else if leftNan || rightNan then (format.canonicalNan, 0)
    else
      var leftInfinite, rightInfinite := IsInfiniteBinary(left, format), IsInfiniteBinary(right, format);
      if leftInfinite && rightInfinite && BitAnd(BitXor(left, right), format.signMask) != 0 then
        (format.canonicalNan, FFLAG_NV)
      else if leftInfinite then (left, 0)
      else if rightInfinite then (right, 0)
      else
        var leftSign, rightSign := BitAnd(left, format.signMask) != 0, BitAnd(right, format.signMask) != 0;
        var (leftSignificand, leftExponent) := FiniteComponents(left, format);
        var (rightSignificand, rightExponent) := FiniteComponents(right, format);
        var common := if leftExponent < rightExponent then leftExponent else rightExponent;
        var leftMagnitude := Shl(leftSignificand, leftExponent - common);
        var rightMagnitude := Shl(rightSignificand, rightExponent - common);
        var (negative, magnitude) := SumMagnitudes(leftMagnitude, leftSign, rightMagnitude, rightSign, mode);
        RoundBinary(magnitude, common, negative, format, mode)
  }

  // ---- the masks read the fields ----

  lemma MasksReadFields(value: nat, format: BinaryFormat)
    requires Supported(format) && IsPattern(value, format)
    ensures IsNanBinary(value, format) <==> IsNaN(value, format)
    ensures IsSignalingNanBinary(value, format) <==> IsSignalingNaN(value, format)
    ensures IsInfiniteBinary(value, format) <==> IsInfinite(value, format)
    ensures BitAnd(value, format.signMask) != 0 <==> SignBit(value, format)
    ensures FiniteComponents(value, format) == (Significand(value, format), QuantumExponent(value, format))
  {
    hide BitAnd, BitOr, Shl, Shr, Low, Pow2;
    FormatShape(format);
    var f, e := format.fractionBits, ExponentBits(format);
    var field := ExponentField(value, format);
    var top := Pow2(e) - 1;
    AndMask(value, f);
    AndField(value, e, f);
    AndBit(value, f + e);
    AndBit(value, f - 1);
    ShrShl(field, f);
    ShlMono(field, top, f);
    ShlMono(top, field, f);
    PackUnpack(value, format);
    ShlOne(f);
    OrDisjoint(1, Fraction(value, format), f);
    InfinityMask(value, f, e);
  }

  lemma InfinityMask(value: nat, f: nat, e: nat)
    ensures BitAnd(value, BitOr(Shl(Pow2(e) - 1, f), Pow2(f) - 1)) == Shl(Low(Shr(value, f), e), f) + Low(value, f)
  {
    hide BitAnd, BitOr, Shl, Shr, Low, Pow2;
    OrDisjoint(Pow2(e) - 1, Pow2(f) - 1, f);
    ShlSum(Pow2(e) - 1, 1, f);
    ShlOne(f);
    Pow2Shl(e, f);
    AndMask(value, e + f);
    ShrAdd(value, f, e);
  }

  // ---- conversions between formats and from integers ----

  ghost predicate SignedZero(bits: nat, negative: bool, format: BinaryFormat)
  {
    FinitePattern(bits, format) && SignBit(bits, format) == negative && Magnitude(bits, format) == 0.0
  }

  lemma ZeroPattern(negative: bool, format: BinaryFormat)
    requires Supported(format)
    ensures SignedZero(if negative then format.signMask else 0, negative, format)
  {
    hide Dyadic, Pow2, Shl, Shr, Low, SignBit, FinitePattern, Magnitude, LeastQuantum;
    FormatShape(format);
    ZeroBits(format.fractionBits);
    SubnormalPattern(negative, 0, format);
    DyadicOrder(0, 0, LeastQuantum(format));
  }

  /** The value a finite pattern denotes, as the rounding routine receives it. */
  lemma ExactOfPattern(value: nat, format: BinaryFormat)
    requires Supported(format) && FinitePattern(value, format)
    ensures var (significand, exponent) := FiniteComponents(value, format);
            && RealValue(value, format) == Exact(significand, exponent, BitAnd(value, format.signMask) != 0)
            && (significand == 0 <==> Magnitude(value, format) == 0.0)
            && Magnitude(value, format) >= 0.0
  {
    hide BitAnd, Dyadic, Pow2;
    MasksReadFields(value, format);
    DyadicOrder(0, Significand(value, format), QuantumExponent(value, format));
    DyadicOrder(Significand(value, format), 0, QuantumExponent(value, format));
  }

  /** What conversion between formats delivers, with exactly its flags. */
  ghost predicate IsConverted(value: nat, source: BinaryFormat, bits: nat, flags: nat, destination: BinaryFormat, mode: nat)
    requires Supported(source) && Supported(destination)
  {
    if IsNaN(value, source) then
      bits == destination.canonicalNan && flags == if IsSignalingNaN(value, source) then FFLAG_NV else 0
    else if IsInfinite(value, source) then
      IsPattern(bits, destination) && IsInfinite(bits, destination)
      && SignBit(bits, destination) == SignBit(value, source) && flags == 0
    else if RealValue(value, source) == 0.0 then
      SignedZero(bits, SignBit(value, source), destination) && flags == 0
    else Delivers(RealValue(value, source), bits, flags, destination, mode)
  }

  /** Conversion between formats (sections 5.4.2 and 6.2 of IEEE 754-2019). */
  lemma ConvertBinaryIsCorrect(value: nat, source: BinaryFormat, destination: BinaryFormat, mode: nat)
    requires Supported(source) && Supported(destination) && ValidRoundingMode(mode) && IsPattern(value, source)
    ensures var (bits, flags) := ConvertBinary(value, source, destination, mode);
            IsConverted(value, source, bits, flags, destination, mode)
  {
    hide BitAnd, BitOr, Shl, Pow2, RoundBinary, Delivers, SignedZero, FiniteComponents, IsNaN, IsSignalingNaN,
         IsPattern, IsNanBinary, IsSignalingNanBinary, IsInfiniteBinary, SignBit, Supported, Magnitude;
    SupportedIsKnown();
    MasksReadFields(value, source);
    if IsNaN(value, source) {
    } else if IsInfinite(value, source) {
      InfinityPattern(SignBit(value, source), destination);
      NoSign(destination);
    } else {
      NotSpecialIsFinite(value, source);
      ExactOfPattern(value, source);
      ZeroPattern(SignBit(value, source), destination);
      var (significand, exponent) := FiniteComponents(value, source);
      RoundZero(exponent, SignBit(value, source), destination, mode);
      if significand != 0 {
        RoundBinaryDelivers(significand, exponent, SignBit(value, source), destination, mode);
      }
    }
  }

  lemma NoSign(format: BinaryFormat)
    ensures BitOr(0, format.exponentMask) == format.exponentMask
  {
  }

  lemma NotSpecialIsFinite(value: nat, format: BinaryFormat)
    requires IsPattern(value, format) && !IsNaN(value, format) && !IsInfinite(value, format)
    ensures FinitePattern(value, format)
  {
  }

  lemma RoundZero(exponent: int, negative: bool, format: BinaryFormat, mode: nat)
    requires Supported(format)
    ensures RoundBinary(0, exponent, negative, format, mode) == (if negative then format.signMask else 0, 0)
  {
  }

  function Signed(negative: bool, magnitude: int): int
  {
    if negative then -magnitude else magnitude
  }

  /** The integer n as a number of the format; zero is always +0. */
  ghost predicate IsFromInteger(n: int, bits: nat, flags: nat, destination: BinaryFormat, mode: nat)
  {
    if n == 0 then SignedZero(bits, false, destination) && flags == 0
    else Delivers(n as real, bits, flags, destination, mode)
  }

  /** Conversion from an integer (section 5.4.1 of IEEE 754-2019). */
  lemma ConvertIntegerIsCorrect(negative: bool, magnitude: Word64, destination: BinaryFormat, mode: nat)
    requires Supported(destination) && ValidRoundingMode(mode)
    ensures var (bits, flags) := ConvertIntegerToBinary(negative, magnitude, destination, mode);
            IsFromInteger(Signed(negative, magnitude), bits, flags, destination, mode)
  {
    hide RoundBinary, Delivers, SignedZero;
    if magnitude == 0 {
      RoundZero(0, false, destination, mode);
      ZeroPattern(false, destination);
    } else {
      RoundBinaryDelivers(magnitude, 0, negative, destination, mode);
    }
  }

  // ---- addition ----

  /** The exact sum of two finite numbers is what addition hands to the rounding routine, at any common exponent. */
  lemma ExactSum(ls: nat, le: int, leftSign: bool, rs: nat, re: int, rightSign: bool, common: int, mode: nat)
    requires common <= le && common <= re
    ensures var (negative, magnitude) := SumMagnitudes(Shl(ls, le - common), leftSign, Shl(rs, re - common), rightSign, mode);
            var sum := Exact(ls, le, leftSign) + Exact(rs, re, rightSign);
            Exact(magnitude, common, negative) == sum && (magnitude == 0 <==> sum == 0.0)
  {
    hide Exact, SumMagnitudes, Shl;
    ExactShl(ls, le, common, leftSign);
    ExactShl(rs, re, common, rightSign);
    AlignedSum(Shl(ls, le - common), leftSign, Shl(rs, re - common), rightSign, common, mode);
  }

  lemma ExactShl(m: nat, e: int, common: int, negative: bool)
    requires common <= e
    ensures Exact(Shl(m, e - common), common, negative) == Exact(m, e, negative)
  {
    hide Dyadic, Shl;
    DyadicShl(m, e - common, common);
  }

  lemma AlignedSum(left: nat, leftSign: bool, right: nat, rightSign: bool, e: int, mode: nat)
    ensures var (negative, magnitude) := SumMagnitudes(left, leftSign, right, rightSign, mode);
            var sum := Exact(left, e, leftSign) + Exact(right, e, rightSign);
            Exact(magnitude, e, negative) == sum && (magnitude == 0 <==> sum == 0.0)
  {
    hide Dyadic;
    DyadicSum(left, right, e);
    DyadicOrder(0, left + right, e);
    if left >= right { DyadicDifference(left, right, e); DyadicOrder(0, left - right, e); }
    if right >= left { DyadicDifference(right, left, e); DyadicOrder(0, right - left, e); }
  }

  lemma DyadicDifference(a: int, b: int, e: int)
    ensures Dyadic(a - b, e) == Dyadic(a, e) - Dyadic(b, e)
  {
    hide Dyadic;
    DyadicSum(a - b, b, e);
  }

  /** A multiple of the least quantum never underflows: below the normal range it is exact. */
  lemma NoUnderflow(m: nat, e: int, negative: bool, format: BinaryFormat, mode: nat)
    requires Supported(format) && e >= LeastQuantum(format)
    ensures var flags := RoundBinary(m, e, negative, format, mode).1;
            flags == 0 || flags == FFLAG_NX || flags == FFLAG_OF + FFLAG_NX
  {
    hide Pow2, Shl, Shr, Low, BitAnd, RoundBig, BitLen;
    FormatShape(format);
    OverflowFlags(negative, format, mode);
  }

  lemma OverflowFlags(negative: bool, format: BinaryFormat, mode: nat)
    requires Supported(format)
    ensures OverflowResult(negative, format, mode).1 == FFLAG_OF + FFLAG_NX
  {
    FlagUnions();
  }

  /** What addition delivers for a pair of patterns, with exactly its flags: NaNs, infinities, signed zeros, and
      otherwise the exact sum correctly rounded, never with underflow. */
  ghost predicate IsSum(left: nat, right: nat, bits: nat, flags: nat, format: BinaryFormat, mode: nat)
    requires Supported(format)
  {
    if IsNaN(left, format) || IsNaN(right, format) then
      bits == format.canonicalNan
      && flags == if IsSignalingNaN(left, format) || IsSignalingNaN(right, format) then FFLAG_NV else 0
    else if IsInfinite(left, format) && IsInfinite(right, format) && SignBit(left, format) != SignBit(right, format) then
      bits == format.canonicalNan && flags == FFLAG_NV
    else if IsInfinite(left, format) then bits == left && flags == 0
    else if IsInfinite(right, format) then bits == right && flags == 0
    else
      var sum := RealValue(left, format) + RealValue(right, format);
      if sum == 0.0 then
        flags == 0
        && SignedZero(bits, if SignBit(left, format) == SignBit(right, format) then SignBit(left, format)
                            else mode == ROUND_RDN, format)
      else
        Delivers(sum, bits, flags, format, mode)
        && (flags == 0 || flags == FFLAG_NX || flags == FFLAG_OF + FFLAG_NX)
  }

  /** Addition for all pairs of patterns (sections 4.3, 6.2, 6.3 and 7.2 of IEEE 754-2019). */
  lemma AddBinaryIsCorrect(left: nat, right: nat, format: BinaryFormat, mode: nat)
    requires Supported(format) && ValidRoundingMode(mode) && IsPattern(left, format) && IsPattern(right, format)
    ensures var (bits, flags) := AddBinary(left, right, format, mode); IsSum(left, right, bits, flags, format, mode)
  {
    hide BitAnd, BitOr, BitXor, Shl, Pow2, Dyadic, RoundBinary, Delivers, SignedZero, FiniteComponents, IsNaN,
         IsPattern, IsNanBinary, IsSignalingNanBinary, IsInfiniteBinary, IsInfinite, SignBit, Magnitude;
    MasksReadFields(left, format);
    MasksReadFields(right, format);
    OppositeSigns(left, right, format);
    if !IsNaN(left, format) && !IsNaN(right, format) && !IsInfinite(left, format) && !IsInfinite(right, format) {
      AddFinite(left, right, format, mode);
    } else {
      SignalingIsNaN(left, format);
      SignalingIsNaN(right, format);
    }
  }

  lemma SignalingIsNaN(value: nat, format: BinaryFormat)
    requires Supported(format)
    ensures IsSignalingNaN(value, format) ==> IsNaN(value, format)
  {
  }

  lemma OppositeSigns(left: nat, right: nat, format: BinaryFormat)
    requires Supported(format)
    ensures BitAnd(BitXor(left, right), format.signMask) != 0 <==> SignBit(left, format) != SignBit(right, format)
  {
    hide BitAnd, BitXor, Pow2;
    FormatShape(format);
    var n := format.fractionBits + ExponentBits(format);
    AndBit(BitXor(left, right), n);
    XorBit(left, right, n);
  }

  lemma ZeroSumSign(left: nat, leftSign: bool, right: nat, rightSign: bool, mode: nat)
    requires SumMagnitudes(left, leftSign, right, rightSign, mode).1 == 0
    ensures SumMagnitudes(left, leftSign, right, rightSign, mode).0 ==
            if leftSign == rightSign then leftSign else mode == ROUND_RDN
  {
  }

  lemma AddFinite(left: nat, right: nat, format: BinaryFormat, mode: nat)
    requires Supported(format) && ValidRoundingMode(mode) && IsPattern(left, format) && IsPattern(right, format)
    requires !IsNaN(left, format) && !IsNaN(right, format) && !IsInfinite(left, format) && !IsInfinite(right, format)
    ensures var (bits, flags) := AddBinary(left, right, format, mode);
            var sum := RealValue(left, format) + RealValue(right, format);
            if sum == 0.0 then
              flags == 0
              && SignedZero(bits, if SignBit(left, format) == SignBit(right, format) then SignBit(left, format)
                                  else mode == ROUND_RDN, format)
            else
              Delivers(sum, bits, flags, format, mode)
              && (flags == 0 || flags == FFLAG_NX || flags == FFLAG_OF + FFLAG_NX)
  {
    hide BitAnd, BitOr, BitXor, Shl, Pow2, Dyadic, RoundBinary, Delivers, SignedZero, FiniteComponents, IsNaN, RealValue, Exact,
         IsPattern, IsNanBinary, IsSignalingNanBinary, IsInfiniteBinary, IsInfinite, SignBit, Magnitude, Supported, LeastQuantum, SumMagnitudes;
    SupportedIsKnown();
    MasksReadFields(left, format);
    MasksReadFields(right, format);
    NotSpecialIsFinite(left, format);
    NotSpecialIsFinite(right, format);
    ExactOfPattern(left, format);
    ExactOfPattern(right, format);
    FiniteParts(left, format);
    FiniteParts(right, format);
    var (ls, le) := FiniteComponents(left, format);
    var (rs, re) := FiniteComponents(right, format);
    var common := if le < re then le else re;
    ExactSum(ls, le, SignBit(left, format), rs, re, SignBit(right, format), common, mode);
    var lm, rm := Shl(ls, le - common), Shl(rs, re - common);
    var (negative, magnitude) := SumMagnitudes(lm, SignBit(left, format), rm, SignBit(right, format), mode);
    assert AddBinary(left, right, format, mode) == RoundBinary(magnitude, common, negative, format, mode);
    if magnitude == 0 {
      ZeroSumSign(lm, SignBit(left, format), rm, SignBit(right, format), mode);
      RoundZero(common, negative, format, mode);
      ZeroPattern(negative, format);
    } else {
      RoundBinaryDelivers(magnitude, common, negative, format, mode);
      NoUnderflow(magnitude, common, negative, format, mode);
    }
  }
}
