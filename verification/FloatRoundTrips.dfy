/** Values that survive a trip through another format. */
module FloatRoundTrips {
  import opened Bytes
  import opened Powers
  import opened BitOps
  import opened BigUints
  import opened Ieee754
  import opened Rounding
  import opened RoundingProof
  import opened FloatOps
  import opened FloatIntegers

  /** A number the format holds comes back as its own pattern, with no flag, in every mode. */
  lemma RepresentableIsKept(m: nat, e: int, negative: bool, b: nat, format: BinaryFormat, mode: nat)
    requires Supported(format) && ValidRoundingMode(mode) && m > 0
    requires FinitePattern(b, format) && SignBit(b, format) == negative
    requires RealValue(b, format) == Exact(m, e, negative)
    ensures RoundBinary(m, e, negative, format, mode) == (b, 0)
  {
    hide Dyadic, RoundBinary, FinitePattern, SignBit, Magnitude, Overflows;
    var (bits, flags) := RoundBinary(m, e, negative, format, mode);
    RoundBinaryDelivers(m, e, negative, format, mode);
    BinadeBounds(m, e);
    FiniteDoesNotOverflow(b, format, mode);
    RoundingKeeps(Exact(m, e, negative), bits, b, format, mode);
    PatternUnique(bits, b, format);
  }

  lemma RoundingKeeps(x: real, bits: nat, b: nat, format: BinaryFormat, mode: nat)
    requires FinitePattern(bits, format) && FinitePattern(b, format) && RealValue(b, format) == x
    requires IsRounding(x, bits, format, mode)
    ensures RealValue(bits, format) == x
  {
    hide RealValue, FinitePattern;
  }

  lemma FiniteDoesNotOverflow(b: nat, format: BinaryFormat, mode: nat)
    requires Supported(format) && FinitePattern(b, format)
    ensures !Overflows(RealValue(b, format), format, mode)
  {
    hide Dyadic, Pow2, Shl, FinitePattern, Significand, QuantumExponent;
    var f, q := format.fractionBits, format.bias - format.fractionBits;
    var k, j := Significand(b, format), QuantumExponent(b, format);
    FiniteParts(b, format);
    Thresholds(format);
    DyadicOrder(0, k, j);
    DyadicOrder(k, 0, j);
    DyadicOrder(k, Pow2(f + 1) - 1, j);
    DyadicOrder(Pow2(f + 1) - 1, k, j);
    DyadicGrows(Pow2(f + 1) - 1, j, q);
  }

  lemma DyadicGrows(k: nat, j: int, q: int)
    requires j <= q
    ensures Dyadic(k, j) <= Dyadic(k, q)
  {
    hide Dyadic;
    DyadicShl(k, q - j, j);
    ShlMono(k, k, q - j);
    DyadicOrder(Shl(k, q - j), k, j);
  }

  /** A number with no more bits than the precision, in the exponent range, is delivered exactly. */
  lemma ShortNumberIsExact(m: nat, e: int, negative: bool, format: BinaryFormat, mode: nat)
    returns (bits: nat)
    requires Supported(format) && ValidRoundingMode(mode) && m > 0
    requires BitLen(m) <= format.precision && LeastQuantum(format) <= e && e + BitLen(m) - 1 <= format.bias
    ensures RoundBinary(m, e, negative, format, mode) == (bits, 0)
    ensures FinitePattern(bits, format) && SignBit(bits, format) == negative
    ensures RealValue(bits, format) == Exact(m, e, negative)
  {
    hide Dyadic, RoundBinary, FinitePattern, SignBit, Magnitude, Overflows, IsRounding;
    ShortHasNoFlag(m, e, negative, format, mode);
    BinadeBounds(m, e);
    RoundBinaryDelivers(m, e, negative, format, mode);
    bits := RoundBinary(m, e, negative, format, mode).0;
  }

  lemma ShortHasNoFlag(m: nat, e: int, negative: bool, format: BinaryFormat, mode: nat)
    requires Supported(format) && m > 0
    requires BitLen(m) <= format.precision && LeastQuantum(format) <= e && e + BitLen(m) - 1 <= format.bias
    ensures RoundBinary(m, e, negative, format, mode).1 == 0
  {
    hide Pow2, Shl, Shr, Low, BitAnd, BitOr, BitLen, RoundBig, OverflowResult;
    FormatShape(format);
    var shift := BitLen(m) - format.precision;
    var n := Shl(m, -shift);
    BitLenShl(m, -shift);
    Pow2Mono(format.precision, 64);
    SmallNumber(n, 64);
    ShlOne(format.precision);
  }

  /** Any binary32 number or infinity widened to binary64 and narrowed back, in any two modes, is unchanged
      and raises nothing. */
  lemma WidenThenNarrow(v: nat, mode: nat, mode': nat)
    requires IsPattern(v, FORMAT_S) && !IsNaN(v, FORMAT_S) && ValidRoundingMode(mode) && ValidRoundingMode(mode')
    ensures var (w, flags) := ConvertBinary(v, FORMAT_S, FORMAT_D, mode);
            && flags == 0 && IsPattern(w, FORMAT_D)
            && ConvertBinary(w, FORMAT_D, FORMAT_S, mode') == (v, 0)
  {
    hide IsPattern, IsNaN, IsInfinite, ConvertBinary;
    if IsInfinite(v, FORMAT_S) {
      InfinityTrip(v, mode, mode');
    } else {
      NotSpecialIsFinite(v, FORMAT_S);
      if Magnitude(v, FORMAT_S) == 0.0 {
        ZeroTrip(v, mode, mode');
      } else {
        NumberTrip(v, mode, mode');
      }
    }
  }

  /** Converting a finite pattern hands its exact value to the rounding routine. */
  lemma ConvertFinite(value: nat, source: BinaryFormat, destination: BinaryFormat, mode: nat)
    requires Supported(source) && Supported(destination) && FinitePattern(value, source)
    ensures ConvertBinary(value, source, destination, mode) ==
            RoundBinary(Significand(value, source), QuantumExponent(value, source), SignBit(value, source), destination, mode)
    ensures Exact(Significand(value, source), QuantumExponent(value, source), SignBit(value, source)) == RealValue(value, source)
    ensures Significand(value, source) == 0 <==> Magnitude(value, source) == 0.0
  {
    hide RoundBinary, IsNanBinary, IsSignalingNanBinary, IsInfiniteBinary, FiniteComponents, BitAnd, Dyadic, Pow2;
    MasksReadFields(value, source);
    DyadicOrder(0, Significand(value, source), QuantumExponent(value, source));
  }

  lemma NumberTrip(v: nat, mode: nat, mode': nat)
    requires FinitePattern(v, FORMAT_S) && Magnitude(v, FORMAT_S) != 0.0
    requires ValidRoundingMode(mode) && ValidRoundingMode(mode')
    ensures var (w, flags) := ConvertBinary(v, FORMAT_S, FORMAT_D, mode);
            && flags == 0 && IsPattern(w, FORMAT_D)
            && ConvertBinary(w, FORMAT_D, FORMAT_S, mode') == (v, 0)
  {
    hide ConvertBinary, RoundBinary, Significand, QuantumExponent, SignBit, Dyadic, Magnitude, IsFinite, Exact, Pow2, BitLen;
    ConvertFinite(v, FORMAT_S, FORMAT_D, mode);
    FiniteParts(v, FORMAT_S);
    var m, e, s := Significand(v, FORMAT_S), QuantumExponent(v, FORMAT_S), SignBit(v, FORMAT_S);
    ShortLength(m, 24);
    var w := ShortNumberIsExact(m, e, s, FORMAT_D, mode);
    ConvertFinite(w, FORMAT_D, FORMAT_S, mode');
    NonzeroMagnitude(w, FORMAT_D, m, e, s);
    RepresentableIsKept(Significand(w, FORMAT_D), QuantumExponent(w, FORMAT_D), s, v, FORMAT_S, mode');
  }

  lemma ShortLength(m: nat, n: nat)
    requires m < Pow2(n)
    ensures BitLen(m) <= n
  {
    if m > 0 { Pow2Mono(n, BitLen(m) - 1); }
  }

  lemma NonzeroMagnitude(w: nat, format: BinaryFormat, m: nat, e: int, negative: bool)
    requires RealValue(w, format) == Exact(m, e, negative) && m > 0
    ensures Magnitude(w, format) != 0.0
  {
    hide Dyadic, Magnitude, SignBit;
    DyadicOrder(0, m, e);
  }

  lemma ZeroTrip(v: nat, mode: nat, mode': nat)
    requires FinitePattern(v, FORMAT_S) && Magnitude(v, FORMAT_S) == 0.0
    ensures var (w, flags) := ConvertBinary(v, FORMAT_S, FORMAT_D, mode);
            && flags == 0 && IsPattern(w, FORMAT_D)
            && ConvertBinary(w, FORMAT_D, FORMAT_S, mode') == (v, 0)
  {
    hide ConvertBinary, RoundBinary, Significand, QuantumExponent, SignBit, Dyadic, Magnitude, IsFinite, Exact, Pow2;
    var s := SignBit(v, FORMAT_S);
    ConvertFinite(v, FORMAT_S, FORMAT_D, mode);
    RoundZero(QuantumExponent(v, FORMAT_S), s, FORMAT_D, mode);
    ZeroPattern(s, FORMAT_D);
    var w := if s then FORMAT_D.signMask else 0;
    ConvertFinite(w, FORMAT_D, FORMAT_S, mode');
    RoundZero(QuantumExponent(w, FORMAT_D), s, FORMAT_S, mode');
    ZeroPattern(s, FORMAT_S);
    PatternUnique(v, if s then FORMAT_S.signMask else 0, FORMAT_S);
  }

  lemma InfinityTrip(v: nat, mode: nat, mode': nat)
    requires IsPattern(v, FORMAT_S) && IsInfinite(v, FORMAT_S) && ValidRoundingMode(mode) && ValidRoundingMode(mode')
    ensures var (w, flags) := ConvertBinary(v, FORMAT_S, FORMAT_D, mode);
            && flags == 0 && IsPattern(w, FORMAT_D)
            && ConvertBinary(w, FORMAT_D, FORMAT_S, mode') == (v, 0)
  {
    hide ConvertBinary, IsPattern, SignBit, ExponentField, Fraction, Delivers, SignedZero, RealValue, Pow2;
    ConvertBinaryIsCorrect(v, FORMAT_S, FORMAT_D, mode);
    var w := ConvertBinary(v, FORMAT_S, FORMAT_D, mode).0;
    ConvertBinaryIsCorrect(w, FORMAT_D, FORMAT_S, mode');
    var u := ConvertBinary(w, FORMAT_D, FORMAT_S, mode').0;
    PackUnpack(v, FORMAT_S);
    PackUnpack(u, FORMAT_S);
  }

  /** Integers of magnitude at most 2^53 become the binary64 number they are, with no flag. */
  lemma IntegerIsExact(negative: bool, magnitude: Word64, mode: nat)
    returns (bits: nat)
    requires 0 < magnitude <= 0x20_0000_0000_0000 && ValidRoundingMode(mode)
    ensures ConvertIntegerToBinary(negative, magnitude, FORMAT_D, mode) == (bits, 0)
    ensures FinitePattern(bits, FORMAT_D) && RealValue(bits, FORMAT_D) == Signed(negative, magnitude) as real
  {
    hide RoundBinary, FinitePattern, SignBit, Magnitude, Pow2, BitLen, RealValue;
    Pow2Double();
    DyadicAtZero();
    if magnitude < 0x20_0000_0000_0000 {
      ShortLength(magnitude, 53);
      bits := ShortNumberIsExact(magnitude, 0, negative, FORMAT_D, mode);
    } else {
      Pow2Zero();
      Pow2Next(0);
      BitLenUnique(1, 1);
      bits := ShortNumberIsExact(1, 53, negative, FORMAT_D, mode);
      DyadicShl(1, 53, 0);
      ShlOne(53);
      RepresentableIsKept(magnitude, 0, negative, bits, FORMAT_D, mode);
    }
  }

  lemma Pow2Zero()
    ensures Pow2(0) == 1
  {
  }

  /** Every 32-bit integer, and every 64-bit integer of magnitude at most 2^53, survives the trip
      through binary64 in any two modes, with no flag either way. */
  lemma IntegerTrip(n: int, signed: bool, bits: nat, mode: nat, mode': nat)
    requires bits == 32 || bits == 64
    requires MinInteger(signed, bits) <= n <= MaxInteger(signed, bits)
    requires -0x20_0000_0000_0000 <= n <= 0x20_0000_0000_0000
    requires ValidRoundingMode(mode) && ValidRoundingMode(mode')
    ensures var (b, flags) := ConvertIntegerToBinary(n < 0, if n < 0 then -n else n, FORMAT_D, mode);
            && flags == 0 && IsPattern(b, FORMAT_D)
            && ConvertBinaryToInteger(b, FORMAT_D, signed, bits, mode') == (RegisterImage(n, bits), 0)
  {
    hide ConvertIntegerToBinary, ConvertBinaryToInteger, RoundBinary, IsPattern, IsFinite, SignBit, Magnitude, IsNaN, IsInfinite, Delivers;
    var b: nat;
    if n == 0 {
      ConvertIntegerIsCorrect(false, 0, FORMAT_D, mode);
      b := ConvertIntegerToBinary(false, 0, FORMAT_D, mode).0;
    } else {
      b := IntegerIsExact(n < 0, if n < 0 then -n else n, mode);
    }
    FiniteIsNotSpecial(b, FORMAT_D);
    var k := ConvertToIntegerIsCorrect(b, FORMAT_D, signed, bits, mode');
    assert IsIntegerRounding(n as real, n, mode');
    IntegerRoundingUnique(n as real, n, k, mode');
  }

  lemma FiniteIsNotSpecial(b: nat, format: BinaryFormat)
    requires FinitePattern(b, format)
    ensures IsPattern(b, format) && !IsNaN(b, format) && !IsInfinite(b, format)
  {
  }
}
