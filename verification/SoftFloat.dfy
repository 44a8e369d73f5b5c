/** The simulator's floating-point routines as they run, over big naturals held
    in limbs that are shifted, added and subtracted in place. Each computes
    exactly what its specification on naturals says. */
module SoftFloat {
  import opened Bytes
  import opened Powers
  import opened BitOps
  import opened BigUints
  import opened Ieee754
  import opened Rounding
  import opened FloatOps

  method RoundBigLimbs(value: BigUint, shift: nat, negative: bool, mode: nat) returns (significand: Word64, inexact: bool)
    requires value.Valid()
    ensures (significand, inexact) == RoundBig(value.Nat(), shift, negative, mode)
  {
    hide Low, Shr, Pow2, Value, BitAnd;
    significand := value.ShiftedU64(shift);
    inexact := value.AnyBelow(shift);
    if !inexact { return; }
    var half := shift != 0 && value.BitSet(shift - 1);
    var belowHalf := shift > 1 && value.AnyBelow(shift - 1);
    var increment := match mode
      case 0 => half && (belowHalf || BitAnd(significand, 1) != 0)
      case 1 => false
      case 2 => negative
      case 3 => !negative
      case 4 => half
      case _ => false;
    if increment { significand := (significand + 1) % 0x1_0000_0000_0000_0000; }
  }

  method RoundBinaryLimbs(magnitude: BigUint, exponent: int, negative: bool, format: BinaryFormat, mode: nat)
    returns (bits: nat, flags: nat)
    requires magnitude.Valid() && Supported(format)
    modifies magnitude
    ensures (bits, flags) == RoundBinary(old(magnitude.Nat()), exponent, negative, format, mode)
  {
    hide Low, Shr, Shl, Pow2, Value, BitAnd, BitOr, RoundBig, BitLen, OverflowResult;
    if magnitude.IsZero() {
      return if negative then format.signMask else 0, 0;
    }
    var emin, emax := 1 - format.bias, format.bias;
    var mostSignificant := exponent + magnitude.BitLength() - 1;
    if mostSignificant > emax {
      bits, flags := SplitPair(OverflowResult(negative, format, mode));
      return;
    }
    var signBit := if negative then format.signMask else 0;
    var significand, inexact;
    if mostSignificant >= emin {
      var shift := magnitude.BitLength() - format.precision;
      if shift > 0 {
        significand, inexact := RoundBigLimbs(magnitude, shift, negative, mode);
      } else {
        magnitude.ShlBits(-shift);
        significand, inexact := magnitude.LowU64(), false;
      }
      var exponentField := mostSignificant;
      if significand == Shl(1, format.precision) {
        significand := Halve(significand);
        exponentField := exponentField + 1;
      }
      if exponentField > emax {
        bits, flags := SplitPair(OverflowResult(negative, format, mode));
        return;
      }
      var fraction := BitAnd(significand, Pow2(format.fractionBits) - 1);
      var encodedExponent := Shl(exponentField + format.bias, format.fractionBits);
      return BitOr(BitOr(signBit, encodedExponent), fraction), if inexact then FFLAG_NX else 0;
    }
    var subnormalExponent := emin - (format.precision - 1);
    var shift := subnormalExponent - exponent;
    if shift > 0 {
      significand, inexact := RoundBigLimbs(magnitude, shift, negative, mode);
    } else {
      magnitude.ShlBits(-shift);
      significand, inexact := magnitude.LowU64(), false;
    }
    if significand >= Shl(1, format.precision - 1) {
      return BitOr(signBit, Shl(1, format.fractionBits)), if inexact then FFLAG_NX else 0;
    }
    return BitOr(signBit, significand), if inexact then BitOr(FFLAG_UF, FFLAG_NX) else 0;
  }

  method SplitPair(pair: (nat, nat)) returns (first: nat, second: nat)
    ensures (first, second) == pair
  {
    return pair.0, pair.1;
  }

  method Halve(x: Word64) returns (r: Word64)
    ensures r == Shr(x, 1)
  {
    assert Shr(x, 1) == Shr(x / 2, 0);
    return x / 2;
  }

  method ComponentLimbs(value: nat, format: BinaryFormat) returns (significand: BigUint, exponent: int)
    requires Supported(format) && IsPattern(value, format) && !IsNanBinary(value, format) && !IsInfiniteBinary(value, format)
    ensures fresh(significand) && significand.Valid()
    ensures (significand.Nat(), exponent) == FiniteComponents(value, format)
  {
    ComponentsFit(value, format);
    var parts := FiniteComponents(value, format);
    significand := new BigUint.FromU64(parts.0);
    exponent := parts.1;
  }

  lemma ComponentsFit(value: nat, format: BinaryFormat)
    requires Supported(format) && IsPattern(value, format) && !IsNanBinary(value, format) && !IsInfiniteBinary(value, format)
    ensures FiniteComponents(value, format).0 < 0x20_0000_0000_0000
  {
    hide FiniteComponents, IsNanBinary, IsInfiniteBinary, Significand, QuantumExponent, Pow2, IsPattern, IsNaN, IsInfinite;
    MasksReadFields(value, format);
    NotSpecialIsFinite(value, format);
    FiniteParts(value, format);
    FormatShape(format);
    Pow2Mono(format.fractionBits + 1, 53);
    Pow2Double();
  }

  method ConvertBinaryLimbs(value: nat, source: BinaryFormat, destination: BinaryFormat, mode: nat)
    returns (bits: nat, flags: nat)
    requires Supported(source) && Supported(destination) && IsPattern(value, source)
    ensures (bits, flags) == ConvertBinary(value, source, destination, mode)
  {
    hide BitAnd, BitOr, IsNanBinary, IsSignalingNanBinary, IsInfiniteBinary, RoundBinary, FiniteComponents, Value, IsPattern;
    if IsNanBinary(value, source) {
      return destination.canonicalNan, if IsSignalingNanBinary(value, source) then FFLAG_NV else 0;
    }
    if IsInfiniteBinary(value, source) {
      return if BitAnd(value, source.signMask) != 0 then BitOr(destination.signMask, destination.exponentMask)
             else destination.exponentMask, 0;
    }
    var negative := BitAnd(value, source.signMask) != 0;
    var significand, exponent := ComponentLimbs(value, source);
    bits, flags := RoundBinaryLimbs(significand, exponent, negative, destination, mode);
  }

  method ConvertIntegerLimbs(negative: bool, magnitude: Word64, destination: BinaryFormat, mode: nat)
    returns (bits: nat, flags: nat)
    requires Supported(destination)
    ensures (bits, flags) == ConvertIntegerToBinary(negative, magnitude, destination, mode)
  {
    var limbs := new BigUint.FromU64(magnitude);
    bits, flags := RoundBinaryLimbs(limbs, 0, negative && magnitude != 0, destination, mode);
  }

  method ConvertToIntegerLimbs(value: nat, source: BinaryFormat, signed: bool, bits: nat, mode: nat)
    returns (register: Word64, flags: nat)
    requires Supported(source) && IsPattern(value, source)
    ensures (register, flags) == ConvertBinaryToInteger(value, source, signed, bits, mode)
  {
    hide BitAnd, BitOr, IsNanBinary, IsInfiniteBinary, RoundBig, FiniteComponents, Value, IsPattern, Shl, Low;
    var negative := BitAnd(value, source.signMask) != 0;
    if IsNanBinary(value, source) || IsInfiniteBinary(value, source) {
      return InvalidIntegerResult(signed, negative, bits), FFLAG_NV;
    }
    var significand, exponent := ComponentLimbs(value, source);
    var magnitude, inexact;
    if exponent >= 0 {
      magnitude, inexact := significand, false;
      magnitude.ShlBits(exponent);
    } else {
      var rounded;
      rounded, inexact := RoundBigLimbs(significand, -exponent, negative, mode);
      magnitude := new BigUint.FromU64(rounded);
    }
    var maxPositive := new BigUint.FromU64(if bits == 32 then 0x7fff_ffff else 0x7fff_ffff_ffff_ffff);
    var minMagnitude := new BigUint.FromU64(if bits == 32 then 0x8000_0000 else 0x8000_0000_0000_0000);
    var maxUnsigned := new BigUint.FromU64(if bits == 32 then 0xffff_ffff else 0xffff_ffff_ffff_ffff);
    var invalid :=
      if signed then
        if negative then magnitude.Cmp(minMagnitude) == Greater else magnitude.Cmp(maxPositive) == Greater
      else (negative && !magnitude.IsZero()) || magnitude.Cmp(maxUnsigned) == Greater;
    if invalid {
      return InvalidIntegerResult(signed, negative, bits), FFLAG_NV;
    }
    var low := magnitude.LowU64();
    LowIsMod(magnitude.Nat());
    var raw: Word64 := if signed && negative then WrappingNegate(low) else low;
    register := if bits == 32 then SignExtend32(raw % 0x1_0000_0000) else raw;
    flags := if inexact then FFLAG_NX else 0;
  }

  lemma LowIsMod(a: nat)
    ensures Low(a, 64) == a % 0x1_0000_0000_0000_0000
  {
    hide Low, Shr, Shl;
    Divide(a, 64);
    Shl64(Shr(a, 64));
    Pow2Word();
  }

  method AddBinaryLimbs(left: nat, right: nat, format: BinaryFormat, mode: nat) returns (bits: nat, flags: nat)
    requires Supported(format) && IsPattern(left, format) && IsPattern(right, format)
    ensures (bits, flags) == AddBinary(left, right, format, mode)
  {
    hide BitAnd, BitOr, BitXor, IsNanBinary, IsSignalingNanBinary, IsInfiniteBinary, RoundBinary, FiniteComponents, Value, IsPattern, Shl;
    var leftNan, rightNan := IsNanBinary(left, format), IsNanBinary(right, format);
    if (leftNan && IsSignalingNanBinary(left, format)) || (rightNan && IsSignalingNanBinary(right, format)) {
      return format.canonicalNan, FFLAG_NV;
    }
    if leftNan || rightNan { return format.canonicalNan, 0; }
    var leftInfinite, rightInfinite := IsInfiniteBinary(left, format), IsInfiniteBinary(right, format);
    if leftInfinite && rightInfinite && BitAnd(BitXor(left, right), format.signMask) != 0 {
      return format.canonicalNan, FFLAG_NV;
    }
    if leftInfinite { return left, 0; }
    if rightInfinite { return right, 0; }
    var leftSign, rightSign := BitAnd(left, format.signMask) != 0, BitAnd(right, format.signMask) != 0;
    var leftMagnitude, leftExponent := ComponentLimbs(left, format);
    var rightMagnitude, rightExponent := ComponentLimbs(right, format);
    var common := if leftExponent < rightExponent then leftExponent else rightExponent;
    leftMagnitude.ShlBits(leftExponent - common);
    rightMagnitude.ShlBits(rightExponent - common);
    var negative, magnitude;
    if leftSign == rightSign {
      leftMagnitude.AddAssign(rightMagnitude);
      negative, magnitude := leftSign, leftMagnitude;
    } else {
      var order := leftMagnitude.Cmp(rightMagnitude);
      if order == Greater {
        leftMagnitude.SubAssign(rightMagnitude);
        negative, magnitude := leftSign, leftMagnitude;
      } else if order == Less {
        rightMagnitude.SubAssign(leftMagnitude);
        negative, magnitude := rightSign, rightMagnitude;
      } else {
        negative := mode == ROUND_RDN;
        magnitude := new BigUint.FromU64(0);
      }
    }
    bits, flags := RoundBinaryLimbs(magnitude, common, negative, format, mode);
  }
}
