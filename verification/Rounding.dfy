/** The simulator's single rounding routine, on the natural numbers its limbs
    denote, and the proof that it delivers every nonzero dyadic number
    correctly rounded with the right flags. */
module Rounding {
  import opened Powers
  import opened BitOps
  import opened Ieee754

  predicate ValidRoundingMode(mode: nat)
  {
    mode <= ROUND_RMM
  }

  // ---- the code ----

  /** A value shifted right and rounded to an integer of 64 bits; whether bits were lost. */
  function RoundBig(value: nat, shift: nat, negative: bool, mode: nat): (nat, bool)
  {
    var significand := Low(Shr(value, shift), 64);
    var inexact := Low(value, shift) != 0;
    if !inexact then (significand, false)
    else
      var half := shift != 0 && Bit(value, shift - 1);
      var belowHalf := shift > 1 && Low(value, shift - 1) != 0;
      var increment := match mode
        case 0 => half && (belowHalf || BitAnd(significand, 1) != 0)
        case 1 => false
        case 2 => negative
        case 3 => !negative
        case 4 => half
        case _ => false;
      (if increment then (significand + 1) % 0x1_0000_0000_0000_0000 else significand, true)
  }

  function OverflowResult(negative: bool, format: BinaryFormat, mode: nat): (nat, nat)
    requires Known(format)
  {
    var signBit := if negative then format.signMask else 0;
    var infinityField := format.exponentMask;
    assert format.exponentMask >= Shl(1, format.fractionBits) by {
      FormatShape(format);
      Pow2Mono(1, ExponentBits(format));
      ShlMono(1, Pow2(ExponentBits(format)) - 1, format.fractionBits);
    }
    var maxFiniteExponent := infinityField - Shl(1, format.fractionBits);
    var maxFraction: nat := Pow2(format.fractionBits) - 1;
    var directedToInfinity := match mode
      case 1 => false
      case 2 => negative
      case 3 => !negative
      case _ => true;
    var exponent := if directedToInfinity then infinityField else maxFiniteExponent;
    (BitOr(BitOr(signBit, exponent), if directedToInfinity then 0 else maxFraction), BitOr(FFLAG_OF, FFLAG_NX))
  }

  function RoundBinary(magnitude: nat, exponent: int, negative: bool, format: BinaryFormat, mode: nat): (nat, nat)
    requires Known(format)
  {
    if magnitude == 0 then (if negative then format.signMask else 0, 0)
    else
      var emin, emax := 1 - format.bias, format.bias;
      var mostSignificant := exponent + BitLen(magnitude) - 1;
      if mostSignificant > emax then OverflowResult(negative, format, mode)
      else
        var signBit := if negative then format.signMask else 0;
        if mostSignificant >= emin then
          var shift := BitLen(magnitude) - format.precision;
          var (rounded, inexact) :=
            if shift > 0 then RoundBig(magnitude, shift, negative, mode)
            else (Low(Shl(magnitude, -shift), 64), false);
          var carried := rounded == Shl(1, format.precision);
          var significand := if carried then Shr(rounded, 1) else rounded;
          var exponentField := if carried then mostSignificant + 1 else mostSignificant;
          if exponentField > emax then OverflowResult(negative, format, mode)
          else
            var fraction := BitAnd(significand, Pow2(format.fractionBits) - 1);
            var encodedExponent := Shl(exponentField + format.bias, format.fractionBits);
            (BitOr(BitOr(signBit, encodedExponent), fraction), if inexact then FFLAG_NX else 0)
        else
          var subnormalExponent := emin - (format.precision - 1);
          var shift := subnormalExponent - exponent;
          var (significand, inexact) :=
            if shift > 0 then RoundBig(magnitude, shift, negative, mode)
            else (Low(Shl(magnitude, -shift), 64), false);
          var minimumNormal := Shl(1, format.precision - 1);
          if significand >= minimumNormal then
            (BitOr(signBit, Shl(1, format.fractionBits)), if inexact then FFLAG_NX else 0)
          else
            (BitOr(signBit, significand), if inexact then BitOr(FFLAG_UF, FFLAG_NX) else 0)
  }

  // ---- rounding on one grid ----

  /** n is the nonnegative real x rounded to an integer multiple of 2^q, where h is the
      multiple just below. */
  ghost predicate RoundedOnGrid(x: real, h: nat, n: nat, q: int, negative: bool, mode: nat)
  {
    var low, high := Dyadic(h, q), Dyadic(h + 1, q);
    && low <= x < high
    && (n == h || n == h + 1)
    && (x == low ==> n == h)
    && (x > low ==>
         match mode
         case 0 => if x - low < high - x then n == h
                   else if x - low > high - x then n == h + 1
                   else n % 2 == 0
         case 1 => n == h
         case 2 => n == if negative then h + 1 else h
         case 3 => n == if negative then h else h + 1
         case 4 => n == if x - low < high - x then h else h + 1
         case _ => false)
  }

  /** Shifting right: the fraction lost, compared with one half. */
  lemma ShiftedReal(m: nat, e: int, k: nat)
    requires k > 0
    ensures var low, high := Dyadic(Shr(m, k), e + k), Dyadic(Shr(m, k) + 1, e + k);
            var x, l := Dyadic(m, e), Low(m, k);
            && low <= x < high
            && (x == low <==> l == 0)
            && (x - low < high - x <==> l < Pow2(k - 1))
            && (x - low > high - x <==> l > Pow2(k - 1))
  {
    var h, l := Shr(m, k), Low(m, k);
    Divide(m, k);
    DyadicShl(h, k, e);
    DyadicSum(Shl(h, k), l, e);
    DyadicShl(1, k, e);
    ShlOne(k);
    DyadicSum(h, 1, e + k);
    DyadicOrder(l, Pow2(k), e);
    DyadicOrder(0, l, e);
    DyadicDouble(l, e);
    DyadicDouble(Pow2(k - 1), e);
    DyadicOrder(2 * l, Pow2(k), e);
    DyadicOrder(Pow2(k), 2 * l, e);
  }

  lemma RoundBigIsRounded(m: nat, e: int, k: nat, negative: bool, mode: nat)
    requires k > 0 && ValidRoundingMode(mode)
    requires Shr(m, k) + 1 < 0x1_0000_0000_0000_0000
    ensures var (n, inexact) := RoundBig(m, k, negative, mode);
            && RoundedOnGrid(Dyadic(m, e), Shr(m, k), n, e + k, negative, mode)
            && (inexact <==> Dyadic(m, e) != Dyadic(Shr(m, k), e + k))
  {
    hide Pow2, Shr, Low, Dyadic, BitAnd;
    var h := Shr(m, k);
    Pow2Word();
    SmallNumber(h, 64);
    ShiftedReal(m, e, k);
    LowNext(m, k - 1);
    ShlOne(k - 1);
    Divide(m, k - 1);
    AndOne(h);
  }

  lemma ExactOnGrid(m: nat, e: int, k: nat, negative: bool, mode: nat)
    ensures RoundedOnGrid(Dyadic(m, e), Shl(m, k), Shl(m, k), e - k, negative, mode)
    ensures Dyadic(m, e) == Dyadic(Shl(m, k), e - k)
  {
    DyadicShl(m, k, e - k);
    DyadicOrder(Shl(m, k), Shl(m, k) + 1, e - k);
  }

  // ---- no number of the format lies inside a grid cell ----

  lemma CellIsEmpty(b: nat, h: nat, q: int, format: BinaryFormat)
    requires Known(format) && FinitePattern(b, format)
    requires q >= LeastQuantum(format) && (q > LeastQuantum(format) ==> h >= Pow2(format.fractionBits))
    ensures Magnitude(b, format) <= Dyadic(h, q) || Magnitude(b, format) >= Dyadic(h + 1, q)
    ensures Magnitude(b, format) >= 0.0
  {
    hide Dyadic, Shl, Pow2, Significand, QuantumExponent, FinitePattern;
    FiniteParts(b, format);
    var k, j := Significand(b, format), QuantumExponent(b, format);
    DyadicOrder(k, 0, j);
    if j >= q {
      DyadicShl(k, j - q, q);
      DyadicOrder(h, Shl(k, j - q), q);
      DyadicOrder(Shl(k, j - q), h + 1, q);
    } else {
      BelowBinade(k, j, h, q, format.fractionBits);
    }
  }

  /** On the magnitude side: a number rounded on a grid without format numbers inside the cells. */
  lemma GridRoundingIsRounding(x: real, h: nat, n: nat, q: int, negative: bool, mode: nat, bits: nat, format: BinaryFormat)
    requires Known(format) && FinitePattern(bits, format) && ValidRoundingMode(mode)
    requires q >= LeastQuantum(format) && (q > LeastQuantum(format) ==> h >= Pow2(format.fractionBits))
    requires x > 0.0 && RoundedOnGrid(x, h, n, q, negative, mode)
    requires SignBit(bits, format) == negative && Magnitude(bits, format) == Dyadic(n, q) && bits % 2 == n % 2
    ensures IsRounding(if negative then -x else x, bits, format, mode)
  {
    var low, high := Dyadic(h, q), Dyadic(h + 1, q);
    DyadicOrder(0, h, q);
    DyadicOrder(0, n, q);
    forall b | FinitePattern(b, format)
      ensures Magnitude(b, format) >= 0.0
      ensures Magnitude(b, format) <= low || Magnitude(b, format) >= high
    {
      CellIsEmpty(b, h, q, format);
    }
    FinishRounding(x, low, high, Dyadic(n, q), negative, mode, bits, format);
  }

  lemma FinishRounding(x: real, low: real, high: real, r: real, negative: bool, mode: nat, bits: nat, format: BinaryFormat)
    requires FinitePattern(bits, format) && ValidRoundingMode(mode)
    requires SignBit(bits, format) == negative && Magnitude(bits, format) == r
    requires 0.0 <= low <= x < high && x > 0.0 && (r == low || r == high) && (x == low ==> r == low)
    requires x > low ==>
         match mode
         case 0 => if x - low < high - x then r == low
                   else if x - low > high - x then r == high
                   else bits % 2 == 0
         case 1 => r == low
         case 2 => r == if negative then high else low
         case 3 => r == if negative then low else high
         case 4 => r == if x - low < high - x then low else high
         case _ => false
    requires forall b :: FinitePattern(b, format) ==>
               Magnitude(b, format) >= 0.0 && (Magnitude(b, format) <= low || Magnitude(b, format) >= high)
    ensures IsRounding(if negative then -x else x, bits, format, mode)
  {
    hide Magnitude, IsFinite, IsPattern;
    var s := if negative then -x else x;
    forall b | FinitePattern(b, format)
      ensures mode == 0 || mode == 4 ==>
        Abs(s - RealValue(bits, format)) <= Abs(s - RealValue(b, format))
    {
    }
    if mode == 0 || mode == 4 {
      forall b | Tied(s, bits, b, format)
        ensures if mode == 0 then bits % 2 == 0 else Abs(RealValue(b, format)) <= Abs(RealValue(bits, format))
      {
      }
    }
  }

  // ---- assembling the delivered pattern ----

  /** Or-ing the sign bit, the shifted exponent field and the fraction packs the fields. */
  lemma OrPacks(negative: bool, field: nat, fraction: nat, format: BinaryFormat)
    requires Known(format)
    requires field < Pow2(ExponentBits(format)) && fraction < Pow2(format.fractionBits)
    ensures var signBit := if negative then format.signMask else 0;
            && BitOr(BitOr(signBit, Shl(field, format.fractionBits)), fraction) == Pack(negative, field, fraction, format)
            && BitOr(signBit, fraction) == Pack(negative, 0, fraction, format)
            && BitOr(signBit, Shl(field, format.fractionBits)) == Pack(negative, field, 0, format)
  {
    hide Shl, Pow2, BitOr, Known;
    FormatShape(format);
    OrFields(if negative then 1 else 0, field, fraction, format.fractionBits, ExponentBits(format));
    ShlOne(format.fractionBits + ExponentBits(format));
  }

  lemma OrFields(s: nat, field: nat, fraction: nat, f: nat, e: nat)
    requires s <= 1 && field < Pow2(e) && fraction < Pow2(f)
    ensures BitOr(BitOr(Shl(s, f + e), Shl(field, f)), fraction) == Shl(s, f + e) + Shl(field, f) + fraction
    ensures BitOr(Shl(s, f + e), fraction) == Shl(s, f + e) + fraction
    ensures BitOr(Shl(s, f + e), Shl(field, f)) == Shl(s, f + e) + Shl(field, f)
    ensures Shl(0, f) == 0
  {
    hide Shl, Pow2, BitOr;
    ZeroBits(f);
    Pow2Shl(e, f);
    ShlMono(field, Pow2(e), f);
    assert e + f == f + e;
    OrDisjoint(s, Shl(field, f), f + e);
    ShlAdd(s, e, f);
    ShlSum(Shl(s, e), field, f);
    OrDisjoint(Shl(s, e) + field, fraction, f);
    Pow2Mono(f, f + e);
    OrDisjoint(s, fraction, f + e);
  }

  /** A normal pattern denotes its significand at its exponent. */
  lemma NormalPattern(negative: bool, field: nat, significand: nat, format: BinaryFormat)
    requires Known(format)
    requires 1 <= field <= 2 * format.bias
    requires Pow2(format.fractionBits) <= significand < Pow2(format.fractionBits + 1)
    ensures var bits := Pack(negative, field, significand - Pow2(format.fractionBits), format);
            && FinitePattern(bits, format) && SignBit(bits, format) == negative
            && Magnitude(bits, format) == Dyadic(significand, field - format.bias - format.fractionBits)
            && bits % 2 == significand % 2
  {
    hide Shl, Pow2, Dyadic, Pack, IsPattern, SignBit, ExponentField, Fraction, Known;
    FormatShape(format);
    Pow2Next(format.fractionBits);
    Pow2Next(format.fractionBits - 1);
    Pow2Next(ExponentBits(format) - 1);
    UnpackPack(negative, field, significand - Pow2(format.fractionBits), format);
  }

  lemma SubnormalPattern(negative: bool, significand: nat, format: BinaryFormat)
    requires Known(format) && significand < Pow2(format.fractionBits)
    ensures var bits := Pack(negative, 0, significand, format);
            && FinitePattern(bits, format) && SignBit(bits, format) == negative
            && Magnitude(bits, format) == Dyadic(significand, LeastQuantum(format))
            && bits % 2 == significand % 2
  {
    hide Shl, Pow2, Dyadic, Pack, IsPattern, SignBit, ExponentField, Fraction, Known;
    FormatShape(format);
    Pow2Mono(1, ExponentBits(format));
    UnpackPack(negative, 0, significand, format);
  }

  lemma InfinityPattern(negative: bool, format: BinaryFormat)
    requires Known(format)
    ensures var bits := BitOr(if negative then format.signMask else 0, format.exponentMask);
            IsPattern(bits, format) && SignBit(bits, format) == negative && IsInfinite(bits, format)
  {
    hide BitOr, Pow2, Shl, SignBit, ExponentField, Fraction, IsPattern, Pack;
    FormatShape(format);
    OrPacks(negative, Pow2(ExponentBits(format)) - 1, 0, format);
    UnpackPack(negative, Pow2(ExponentBits(format)) - 1, 0, format);
  }

  lemma LargestPattern(negative: bool, format: BinaryFormat)
    requires Known(format)
    ensures Shl(1, format.fractionBits) <= format.exponentMask
    ensures var signBit := if negative then format.signMask else 0;
            var exponent := format.exponentMask - Shl(1, format.fractionBits);
            var bits := BitOr(BitOr(signBit, exponent), Pow2(format.fractionBits) - 1);
            FinitePattern(bits, format) && SignBit(bits, format) == negative && Magnitude(bits, format) == MaxFinite(format)
  {
    hide BitOr, Dyadic, SignBit, ExponentField, Fraction, IsPattern, IsFinite, Pow2, Shl, Pack, Known;
    FormatShape(format);
    var f, e := format.fractionBits, ExponentBits(format);
    var top := Pow2(e) - 1;
    Pow2Next(e - 1);
    Pow2Next(f);
    ShlSum(top - 1, 1, f);
    OrPacks(negative, top - 1, Pow2(f) - 1, format);
    NormalPattern(negative, top - 1, Pow2(f + 1) - 1, format);
  }

  lemma OverflowResultIsRight(negative: bool, format: BinaryFormat, mode: nat)
    requires Known(format) && ValidRoundingMode(mode)
    ensures var (bits, flags) := OverflowResult(negative, format, mode);
            IsOverflowResult(negative, bits, format, mode) && flags == FFLAG_OF + FFLAG_NX
  {
    hide Shl, Pow2, BitOr, Magnitude, MaxFinite, SignBit, IsInfinite, IsFinite, IsPattern;
    FlagUnions();
    InfinityPattern(negative, format);
    LargestPattern(negative, format);
    BitOrZero(BitOr(if negative then format.signMask else 0, format.exponentMask));
  }

  lemma FlagUnions()
    ensures BitOr(FFLAG_OF, FFLAG_NX) == FFLAG_OF + FFLAG_NX
    ensures BitOr(FFLAG_UF, FFLAG_NX) == FFLAG_UF + FFLAG_NX
  {
  }

  lemma BitOrZero(a: nat)
    ensures BitOr(a, 0) == a
  {
  }
}
