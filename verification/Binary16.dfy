/** The formatter's conversion of a binary64 pattern to binary16, and the proof that it
    rounds to nearest, ties to even (section 4.3.1 of IEEE 754-2019). */
module Binary16 {
  import opened Powers
  import opened BitOps
  import opened Ieee754
  import opened Rounding
  import opened RoundingProof
  import opened FloatOps

  // ---- the code ----

  function RoundShift(value: nat, shift: nat): nat
  {
    if shift == 0 then value
    else
      var truncated := Shr(value, shift);
      var remainder := BitAnd(value, Pow2(shift) - 1);
      var halfway := Pow2(shift - 1);
      if remainder > halfway || (remainder == halfway && BitAnd(truncated, 1) != 0) then truncated + 1 else truncated
  }

  function F64ToBinary16(bits: nat): nat
  {
    var sign := BitAnd(Shr(bits, 48), 0x8000);
    var exponent := BitAnd(Shr(bits, 52), 0x7ff);
    var fraction := BitAnd(bits, 0xf_ffff_ffff_ffff);
    if exponent == 0x7ff then
      BitOr(sign, if fraction == 0 then 0x7c00 else if BitAnd(fraction, 0x8_0000_0000_0000) != 0 then 0x7e00 else 0x7c01)
    else if exponent == 0 then sign
    else Encode(sign, exponent - 1023, BitOr(0x10_0000_0000_0000, fraction))
  }

  /** A normal number: its sign bit in place, its exponent, its 53-bit significand. */
  function Encode(sign: nat, unbiased: int, significand: nat): nat
  {
    if unbiased > 15 then BitOr(sign, 0x7c00)
    else if unbiased >= -14 then
      var rounded := RoundShift(significand, 42);
      var mantissa := if rounded == 0x800 then 0x400 else rounded;
      var halfExponent: nat := if rounded == 0x800 then unbiased + 16 else unbiased + 15;
      if halfExponent >= 31 then BitOr(sign, 0x7c00)
      else BitOr(BitOr(sign, Shl(halfExponent, 10)), BitAnd(mantissa, 0x3ff))
    else
      var shift: nat := 28 - unbiased;
      if shift > 63 then sign
      else
        var mantissa := RoundShift(significand, shift);
        if mantissa >= 0x400 then BitOr(sign, 0x400) else BitOr(sign, mantissa)
  }

  // ---- the shift is the simulator's rounding step ----

  lemma RoundShiftIsRoundBig(value: nat, shift: nat, negative: bool)
    requires shift > 0 && Shr(value, shift) + 1 < 0x1_0000_0000_0000_0000
    ensures RoundShift(value, shift) == RoundBig(value, shift, negative, ROUND_RNE).0
  {
    hide Shr, Low, BitAnd, Pow2, Shl;
    Pow2Word();
    SmallNumber(Shr(value, shift), 64);
    AndMask(value, shift);
    LowNext(value, shift - 1);
    Divide(value, shift - 1);
    ShlOne(shift - 1);
    AndOne(Shr(value, shift));
    NoLowBits(value);
  }

  lemma NoLowBits(value: nat)
    ensures Low(value, 0) == 0
  {
  }

  lemma Significand53(significand: nat, shift: nat)
    requires Pow2(52) <= significand < Pow2(53)
    ensures BitLen(significand) == 53 && Shr(significand, shift) < Pow2(53)
    ensures shift >= 53 ==> Shr(significand, shift) == 0
    ensures shift >= 54 ==> RoundBig(significand, shift, false, ROUND_RNE).0 == 0
  {
    hide Shr, Low, Pow2, Shl, BitAnd;
    BitLenUnique(significand, 53);
    Divide(significand, shift);
    ShlMono(Shr(significand, shift), 0, shift);
    if shift >= 53 {
      Pow2Mono(53, shift);
      SmallNumber(significand, shift);
    }
    if shift >= 54 {
      Pow2Mono(53, shift - 1);
      SmallNumber(significand, shift - 1);
      ZeroBits(64);
    }
  }

  lemma RoundNearestIgnoresSign(value: nat, shift: nat, negative: bool)
    ensures RoundBig(value, shift, negative, ROUND_RNE) == RoundBig(value, shift, false, ROUND_RNE)
  {
  }

  function SignMask(negative: bool): nat { if negative then 0x8000 else 0 }

  lemma HalfConstants()
    ensures Known(FORMAT_H) && ExponentBits(FORMAT_H) == 5
    ensures Shl(1, 11) == 0x800 && Shl(1, 10) == 0x400 && Pow2(10) == 0x400 && Pow2(11) == 0x800 && Pow2(53) <= 0x20_0000_0000_0000
    ensures forall a: nat :: BitOr(a, 0) == a
  {
    Pow2Double();
    ShlOne(11);
    ShlOne(10);
    forall a: nat ensures BitOr(a, 0) == a { BitOrZero(a); }
  }

  lemma EncodeLarge(negative: bool, unbiased: int, significand: nat)
    requires Pow2(52) <= significand < Pow2(53) && unbiased > 15
    ensures Encode(SignMask(negative), unbiased, significand)
         == RoundBinary(significand, unbiased - 52, negative, FORMAT_H, ROUND_RNE).0
  {
    hide Shl, Shr, Low, Pow2, BitAnd, BitOr, RoundBig, BitLen, RoundShift;
    HalfConstants();
    Significand53(significand, 0);
  }

  lemma EncodeNormal(negative: bool, unbiased: int, significand: nat)
    requires Pow2(52) <= significand < Pow2(53) && -14 <= unbiased <= 15
    ensures Encode(SignMask(negative), unbiased, significand)
         == RoundBinary(significand, unbiased - 52, negative, FORMAT_H, ROUND_RNE).0
  {
    hide Shl, Shr, Low, Pow2, BitAnd, BitOr, RoundBig, BitLen, RoundShift;
    HalfConstants();
    Significand53(significand, 42);
    RoundShiftIsRoundBig(significand, 42, negative);
    assert Shr(0x800, 1) == 0x400 by { HalfOf(0x800); }
  }

  lemma EncodeSmall(negative: bool, unbiased: int, significand: nat)
    requires Pow2(52) <= significand < Pow2(53) && -1022 <= unbiased < -14
    ensures Encode(SignMask(negative), unbiased, significand)
         == RoundBinary(significand, unbiased - 52, negative, FORMAT_H, ROUND_RNE).0
  {
    hide Shl, Shr, Low, Pow2, BitAnd, BitOr, RoundBig, BitLen, RoundShift;
    HalfConstants();
    var shift := 28 - unbiased;
    Significand53(significand, shift);
    RoundShiftIsRoundBig(significand, shift, negative);
    RoundNearestIgnoresSign(significand, shift, negative);
  }

  /** A binary64 below its normal range is far below half of binary16's least number. */
  lemma TinyRoundsToZero(negative: bool, fraction: nat)
    requires fraction < Pow2(52)
    ensures RoundBinary(fraction, -1074, negative, FORMAT_H, ROUND_RNE).0 == SignMask(negative)
  {
    hide Shl, Shr, Low, Pow2, BitAnd, BitOr, BitLen;
    HalfConstants();
    if fraction > 0 {
      Pow2Mono(BitLen(fraction) - 1, 51);
      assert BitLen(fraction) <= 52 by { TinyLength(fraction); }
      Pow2Mono(52, 1049);
      Pow2Mono(52, 1050);
      SmallNumber(fraction, 1049);
      SmallNumber(fraction, 1050);
      ZeroBits(64);
    }
  }

  lemma TinyLength(fraction: nat)
    requires fraction < Pow2(52)
    ensures BitLen(fraction) <= 52
  {
    if BitLen(fraction) > 52 { Pow2Mono(52, BitLen(fraction) - 1); }
  }

  // ---- the fields of the argument ----

  lemma FieldsRead(bits: nat)
    requires IsPattern(bits, FORMAT_D)
    ensures BitAnd(Shr(bits, 48), 0x8000) == SignMask(SignBit(bits, FORMAT_D))
    ensures BitAnd(Shr(bits, 52), 0x7ff) == ExponentField(bits, FORMAT_D) < 0x800
    ensures BitAnd(bits, 0xf_ffff_ffff_ffff) == Fraction(bits, FORMAT_D) < Pow2(52)
    ensures BitOr(0x10_0000_0000_0000, Fraction(bits, FORMAT_D)) == Pow2(52) + Fraction(bits, FORMAT_D)
  {
    hide Shl, Shr, Low, Pow2, BitAnd, BitOr;
    Pow2Double();
    Pow2Single();
    Pow2Next(14);
    assert Pow2(15) == 0x8000 by { Pow2Plus8(7); }
    AndBit(Shr(bits, 48), 15);
    ShrAdd(bits, 48, 15);
    AndMask(Shr(bits, 52), 11);
    AndMask(bits, 52);
    PackUnpack(bits, FORMAT_D);
    ShlOne(52);
    OrDisjoint(1, Fraction(bits, FORMAT_D), 52);
  }

  function Unbiased(field: nat): int { field - 1023 }

  /** The conversion of a finite number is the simulator's rounding routine in binary16, ties to even. */
  lemma FiniteIsRounded(bits: nat)
    requires FinitePattern(bits, FORMAT_D)
    ensures F64ToBinary16(bits) ==
            RoundBinary(Significand(bits, FORMAT_D), QuantumExponent(bits, FORMAT_D), SignBit(bits, FORMAT_D), FORMAT_H, ROUND_RNE).0
  {
    hide Shl, Shr, Low, Pow2, BitAnd, BitOr, RoundBinary, SignBit, ExponentField, Fraction, Encode, IsPattern;
    FieldsRead(bits);
    Pow2Double();
    var field, fraction, negative := ExponentField(bits, FORMAT_D), Fraction(bits, FORMAT_D), SignBit(bits, FORMAT_D);
    if field == 0 {
      TinyRoundsToZero(negative, fraction);
    } else {
      Pow2Next(52);
      var unbiased: int := Unbiased(field);
      if unbiased > 15 {
        EncodeLarge(negative, unbiased, Pow2(52) + fraction);
      } else if unbiased >= -14 {
        EncodeNormal(negative, unbiased, Pow2(52) + fraction);
      } else {
        EncodeSmall(negative, unbiased, Pow2(52) + fraction);
      }
    }
  }

  /** Every finite nonzero binary64 is delivered as the nearest binary16, ties to even - through carries, subnormal
      results and overflow to infinity - and zeros keep their sign. */
  lemma FiniteConversionIsCorrect(bits: nat)
    requires FinitePattern(bits, FORMAT_D)
    ensures if Significand(bits, FORMAT_D) == 0 then F64ToBinary16(bits) == SignMask(SignBit(bits, FORMAT_D))
            else exists flags :: Delivers(RealValue(bits, FORMAT_D), F64ToBinary16(bits), flags, FORMAT_H, ROUND_RNE)
  {
    hide Dyadic, Pow2, BitAnd, BitOr, Delivers, SignBit, Significand, QuantumExponent, FinitePattern, F64ToBinary16;
    FiniteIsRounded(bits);
    var m, e, negative := Significand(bits, FORMAT_D), QuantumExponent(bits, FORMAT_D), SignBit(bits, FORMAT_D);
    if m > 0 {
      RoundBinaryDelivers(m, e, negative, FORMAT_H, ROUND_RNE);
      var flags := RoundBinary(m, e, negative, FORMAT_H, ROUND_RNE).1;
      assert RealValue(bits, FORMAT_D) == Exact(m, e, negative);
      assert Delivers(RealValue(bits, FORMAT_D), F64ToBinary16(bits), flags, FORMAT_H, ROUND_RNE);
    }
  }

  /** Infinities and NaNs keep their kind and sign. */
  lemma SpecialConversionIsCorrect(bits: nat)
    requires IsPattern(bits, FORMAT_D) && !IsFinite(bits, FORMAT_D)
    ensures var half := F64ToBinary16(bits);
            && IsPattern(half, FORMAT_H) && SignBit(half, FORMAT_H) == SignBit(bits, FORMAT_D)
            && IsInfinite(half, FORMAT_H) == IsInfinite(bits, FORMAT_D)
            && IsNaN(half, FORMAT_H) == IsNaN(bits, FORMAT_D)
            && IsSignalingNaN(half, FORMAT_H) == IsSignalingNaN(bits, FORMAT_D)
  {
    hide Shl, Shr, Low, Pow2, BitAnd, BitOr, SignBit, ExponentField, IsPattern, Encode, Pack, Bit;
    FieldsRead(bits);
    Pow2Double();
    HalfConstants();
    var fraction, negative := Fraction(bits, FORMAT_D), SignBit(bits, FORMAT_D);
    AndBit(fraction, 51);
    LowBit(bits, 52, 51);
    var payload := if fraction == 0 then 0 else if Bit(bits, 51) then 0x200 else 1;
    SpecialPattern(negative, payload);
    assert F64ToBinary16(bits) == BitOr(SignMask(negative), 0x7c00 + payload);
  }

  /** A bit below a mask survives it. */
  lemma {:induction false} LowBit(a: nat, n: nat, k: nat)
    requires k < n
    ensures Bit(Low(a, n), k) == Bit(a, k)
    decreases k
  {
    if k > 0 {
      LowBit(a / 2, n - 1, k - 1);
    }
  }

  lemma HalfPowers()
    ensures Pow2(5) == 32 && Pow2(9) == 0x200 && Pow2(10) == 0x400 && Pow2(15) == 0x8000 && Shl(31, 10) == 0x7c00
  {
    FormatShape(FORMAT_H);
    assert Pow2(15) == 0x8000 by { Pow2Plus8(7); }
  }

  lemma QuietBit(payload: nat)
    requires payload == 0 || payload == 1 || payload == 0x200
    ensures Bit(payload, 9) == (payload == 0x200)
  {
    hide Shl, Pow2, Shr, Low;
    HalfPowers();
    ShlOne(9);
    if payload == 0x200 { DivideUnique(payload, 9, 1, 0); } else { SmallNumber(payload, 9); }
  }

  lemma SpecialPattern(negative: bool, payload: nat)
    requires payload == 0 || payload == 1 || payload == 0x200
    ensures var half := BitOr(SignMask(negative), 0x7c00 + payload);
            && IsPattern(half, FORMAT_H) && SignBit(half, FORMAT_H) == negative
            && !IsFinite(half, FORMAT_H) && Fraction(half, FORMAT_H) == payload
            && Bit(half, 9) == (payload == 0x200)
  {
    hide Shl, Pow2, BitOr, Shr, Low, Bit;
    HalfConstants();
    HalfPowers();
    ShlOne(15);
    OrDisjoint(if negative then 1 else 0, 0x7c00 + payload, 15);
    UnpackPack(negative, 31, payload, FORMAT_H);
    LowBit(Pack(negative, 31, payload, FORMAT_H), 10, 9);
    QuietBit(payload);
  }
}
