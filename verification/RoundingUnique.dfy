/** Correct delivery determines the pattern and the flags: no other result would do. */
module RoundingUnique {
  import opened Powers
  import opened BitOps
  import opened Ieee754
  import opened Rounding
  import opened RoundingProof

  /** The least pattern of a sign. */
  function Base(negative: bool, format: BinaryFormat): nat
  {
    if negative then Pow2(format.fractionBits + ExponentBits(format)) else 0
  }

  /** The finite patterns of a sign are consecutive, from its zero up. */
  lemma FiniteRange(bits: nat, negative: bool, format: BinaryFormat)
    requires Known(format)
    ensures FinitePattern(bits, format) && SignBit(bits, format) == negative
       <==> Base(negative, format) <= bits < Base(negative, format) + format.exponentMask
  {
    hide Shl, Pow2, Known, IsPattern, SignBit, ExponentField, Fraction, Pack;
    var f, e := format.fractionBits, ExponentBits(format);
    FormatShape(format);
    if FinitePattern(bits, format) && SignBit(bits, format) == negative {
      PackUnpack(bits, format);
      FieldBelow(ExponentField(bits, format), Pow2(e) - 1, Fraction(bits, format), f);
      PackedPattern(bits, negative, ExponentField(bits, format), Fraction(bits, format), format);
    }
    if Base(negative, format) <= bits < Base(negative, format) + format.exponentMask {
      var rest := bits - Base(negative, format);
      Divide(rest, f);
      RestField(rest, Pow2(e) - 1, f);
      UnpackPack(negative, Shr(rest, f), Low(rest, f), format);
      PackedPattern(bits, negative, Shr(rest, f), Low(rest, f), format);
    }
  }

  lemma PackedPattern(bits: nat, negative: bool, field: nat, fraction: nat, format: BinaryFormat)
    ensures bits == Base(negative, format) + Shl(field, format.fractionBits) + fraction <==> bits == Pack(negative, field, fraction, format)
  {
  }

  lemma FieldBelow(field: nat, top: nat, fraction: nat, f: nat)
    requires field < top && fraction < Pow2(f)
    ensures Shl(field, f) + fraction < Shl(top, f)
  {
    ShlMono(field, top, f);
  }

  lemma RestField(rest: nat, top: nat, f: nat)
    requires rest < Shl(top, f)
    ensures Shr(rest, f) < top
  {
    ShrBounds(rest, f, top);
  }

  /** A larger finite pattern of the same sign denotes a larger magnitude. */
  lemma PatternOrder(a: nat, b: nat, format: BinaryFormat)
    requires Known(format) && FinitePattern(a, format) && FinitePattern(b, format)
    requires SignBit(a, format) == SignBit(b, format) && a < b
    ensures Magnitude(a, format) < Magnitude(b, format)
  {
    hide Shl, Pow2, Known, IsPattern, SignBit, ExponentField, Fraction, Pack, Dyadic;
    var f := format.fractionBits;
    FormatShape(format);
    PackUnpack(a, format);
    PackUnpack(b, format);
    var fa, fb := ExponentField(a, format), ExponentField(b, format);
    PackedPattern(a, SignBit(a, format), fa, Fraction(a, format), format);
    PackedPattern(b, SignBit(b, format), fb, Fraction(b, format), format);
    if fb < fa { FieldBelow(fb, fa, Fraction(b, format), f); }
    if fa == fb {
      DyadicOrder(Significand(a, format), Significand(b, format), QuantumExponent(a, format));
    } else if QuantumExponent(a, format) < QuantumExponent(b, format) {
      NoSharedMagnitude(a, b, format);
    } else {
      // fields 0 and 1 share a quantum
      DyadicOrder(Significand(a, format), Significand(b, format), QuantumExponent(a, format));
    }
  }

  /** Two different finite patterns that are both nearest to a number, and both even, cannot be. */
  lemma EvenTieUnique(x: real, a: nat, b: nat, format: BinaryFormat)
    requires Known(format) && FinitePattern(a, format) && FinitePattern(b, format)
    requires SignBit(a, format) == SignBit(b, format) && a < b
    requires Nearest(x, a, format) && Nearest(x, b, format) && a % 2 == 0
    ensures b % 2 != 0
  {
    hide Known, IsPattern, SignBit, Magnitude, IsFinite;
    if b % 2 == 0 {
      var c := a + 1;
      var negative := SignBit(a, format);
      FiniteRange(a, negative, format);
      FiniteRange(b, negative, format);
      FiniteRange(c, negative, format);
      PatternOrder(a, c, format);
      PatternOrder(c, b, format);
      Between(x, RealValue(a, format), RealValue(c, format), RealValue(b, format));
      assert false;
    }
  }

  lemma Between(x: real, a: real, c: real, b: real)
    requires (a < c < b || b < c < a) && Abs(x - a) == Abs(x - b)
    ensures Abs(x - c) < Abs(x - a)
  {
  }

  lemma SameRounding(x: real, a: nat, b: nat, format: BinaryFormat, mode: nat)
    requires Known(format) && ValidRoundingMode(mode) && FinitePattern(a, format) && FinitePattern(b, format)
    requires SignBit(a, format) == SignBit(b, format) == (x < 0.0)
    requires IsRounding(x, a, format, mode) && IsRounding(x, b, format, mode)
    ensures a == b
  {
    hide Known, IsPattern, SignBit, Magnitude, IsFinite;
    MagnitudeSigns(a, format);
    MagnitudeSigns(b, format);
    assert mode == 4 && RealValue(a, format) != RealValue(b, format) ==> Tied(x, a, b, format) && Tied(x, b, a, format);
    if RealValue(a, format) == RealValue(b, format) {
      PatternUnique(a, b, format);
    } else if mode == 0 {
      assert Tied(x, a, b, format) && Tied(x, b, a, format);
      if a < b { EvenTieUnique(x, a, b, format); }
      if b < a { EvenTieUnique(x, b, a, format); }
    }
  }

  lemma MagnitudeSigns(bits: nat, format: BinaryFormat)
    ensures Magnitude(bits, format) >= 0.0
  {
    hide Dyadic;
    DyadicOrder(0, Significand(bits, format), QuantumExponent(bits, format));
    DyadicOrder(Significand(bits, format), 0, QuantumExponent(bits, format));
  }

  lemma SameOverflow(a: nat, b: nat, negative: bool, format: BinaryFormat, mode: nat)
    requires Known(format) && IsOverflowResult(negative, a, format, mode) && IsOverflowResult(negative, b, format, mode)
    ensures a == b
  {
    hide Known, IsPattern, SignBit, ExponentField, Fraction, Magnitude, MaxFinite, Pack, Pow2;
    PackUnpack(a, format);
    PackUnpack(b, format);
    if IsFinite(a, format) && IsFinite(b, format) { PatternUnique(a, b, format); }
  }

  /** What is correctly delivered for a number, and with which flags, is determined. */
  lemma DeliveryIsUnique(x: real, a: nat, flagsA: nat, b: nat, flagsB: nat, format: BinaryFormat, mode: nat)
    requires Known(format) && ValidRoundingMode(mode)
    requires Delivers(x, a, flagsA, format, mode) && Delivers(x, b, flagsB, format, mode)
    ensures a == b && flagsA == flagsB
  {
    hide Known, Overflows, IsOverflowResult, FinitePattern, IsRounding, SignBit, Magnitude, MinNormal;
    if Overflows(x, format, mode) {
      SameOverflow(a, b, x < 0.0, format, mode);
    } else {
      SameRounding(x, a, b, format, mode);
    }
  }

  /** The routine's result is the only correct one: anything correctly delivered for m * 2^e is what it returns. */
  lemma OnlyCorrectResult(m: nat, e: int, negative: bool, bits: nat, flags: nat, format: BinaryFormat, mode: nat)
    requires Known(format) && ValidRoundingMode(mode) && m > 0
    ensures Delivers(Exact(m, e, negative), bits, flags, format, mode) <==> RoundBinary(m, e, negative, format, mode) == (bits, flags)
  {
    hide Delivers, RoundBinary, Known, Exact;
    RoundBinaryDelivers(m, e, negative, format, mode);
    var (b, f) := RoundBinary(m, e, negative, format, mode);
    if Delivers(Exact(m, e, negative), bits, flags, format, mode) {
      DeliveryIsUnique(Exact(m, e, negative), bits, flags, b, f, format, mode);
    }
  }
}
