/** Every nonzero dyadic number is delivered correctly rounded. */
module RoundingProof {
  import opened Powers
  import opened BitOps
  import opened Ieee754
  import opened Rounding

  /** The real number the rounding routine is asked to deliver. */
  ghost function Exact(magnitude: nat, exponent: int, negative: bool): real
  {
    if negative then -Dyadic(magnitude, exponent) else Dyadic(magnitude, exponent)
  }

  lemma BinadeBounds(m: nat, e: int)
    requires m > 0
    ensures var top := e + BitLen(m) - 1;
            Dyadic(1, top) <= Dyadic(m, e) < Dyadic(1, top + 1)
    ensures Dyadic(m, e) > 0.0
  {
    var n := BitLen(m);
    DyadicShl(1, n - 1, e);
    DyadicShl(1, n, e);
    ShlOne(n - 1);
    ShlOne(n);
    DyadicOrder(m, Pow2(n - 1), e);
    DyadicOrder(m, Pow2(n), e);
    DyadicOrder(0, m, e);
  }

  lemma PowersOrdered(a: int, b: int)
    requires a <= b
    ensures Dyadic(1, a) <= Dyadic(1, b)
  {
    DyadicShl(1, b - a, a);
    ShlMono(1, 1, b - a);
    DyadicOrder(Shl(1, b - a), 1, a);
  }

  /** The overflow thresholds, in units of the largest quantum. */
  lemma Thresholds(format: BinaryFormat)
    requires Known(format)
    ensures var f, q := format.fractionBits, format.bias - format.fractionBits;
            var half := Dyadic(Pow2(f + 2) - 1, q - 1);
            && Dyadic(1, format.bias) < MaxFinite(format) < half < Dyadic(1, format.bias + 1)
            && Dyadic(1, format.bias + 1) == Dyadic(Pow2(f + 1), q)
            && half - MaxFinite(format) == Dyadic(1, format.bias + 1) - half
  {
    hide Dyadic, Shl, Pow2, Known;
    var f, q := format.fractionBits, format.bias - format.fractionBits;
    FormatShape(format);
    Pow2Next(f);
    Pow2Next(f + 1);
    DyadicShl(1, f, q);
    ShlOne(f);
    DyadicShl(1, f + 1, q);
    ShlOne(f + 1);
    Pow2Mono(1, f);
    var max := Pow2(f + 1) - 1;
    assert Pow2(f + 2) - 1 == 2 * max + 1;
    DyadicOrder(Pow2(f), max, q);
    Halfway(max, q);
  }

  /** The midpoint of two neighbours on a grid. */
  lemma Halfway(k: int, q: int)
    ensures Dyadic(k, q) < Dyadic(2 * k + 1, q - 1) < Dyadic(k + 1, q)
    ensures Dyadic(2 * k + 1, q - 1) - Dyadic(k, q) == Dyadic(k + 1, q) - Dyadic(2 * k + 1, q - 1)
  {
    hide Dyadic;
    DyadicDouble(k, q - 1);
    DyadicDouble(k + 1, q - 1);
    DyadicSum(2 * k, 1, q - 1);
    DyadicSum(2 * k + 1, 1, q - 1);
    DyadicOrder(0, 1, q - 1);
  }

  lemma SmallDoesNotOverflow(x: real, format: BinaryFormat, mode: nat)
    requires Known(format) && Abs(x) < Dyadic(1, format.bias)
    ensures !Overflows(x, format, mode)
  {
    hide Dyadic, Pow2, MaxFinite, Known;
    Thresholds(format);
  }

  lemma HugeOverflows(x: real, format: BinaryFormat, mode: nat)
    requires Known(format) && Abs(x) >= Dyadic(1, format.bias + 1)
    ensures Overflows(x, format, mode)
  {
    hide Dyadic, Pow2, MaxFinite, Known;
    Thresholds(format);
  }

  /** In the top binade, rounding carries out of the significand exactly on overflow. */
  lemma CarryIsOverflow(x: real, h: nat, n: nat, negative: bool, format: BinaryFormat, mode: nat)
    requires Known(format) && ValidRoundingMode(mode) && x > 0.0
    requires h < Pow2(format.fractionBits + 1)
    requires RoundedOnGrid(x, h, n, format.bias - format.fractionBits, negative, mode)
    ensures n == Pow2(format.fractionBits + 1) <==> Overflows(if negative then -x else x, format, mode)
  {
    hide Dyadic, Known, Pow2;
    var q := format.bias - format.fractionBits;
    var max := Pow2(format.fractionBits + 1) - 1;
    Thresholds(format);
    Pow2Next(format.fractionBits);
    if h == max {
      assert max % 2 == 1;
    } else {
      DyadicOrder(max, h + 1, q);
    }
  }

  lemma FiniteDelivery(x: real, h: nat, n: nat, q: int, negative: bool, mode: nat, bits: nat, flags: nat, format: BinaryFormat)
    requires Known(format) && FinitePattern(bits, format) && ValidRoundingMode(mode)
    requires q >= LeastQuantum(format) && (q > LeastQuantum(format) ==> h >= Pow2(format.fractionBits))
    requires x > 0.0 && RoundedOnGrid(x, h, n, q, negative, mode)
    requires SignBit(bits, format) == negative && Magnitude(bits, format) == Dyadic(n, q) && bits % 2 == n % 2
    requires !Overflows(if negative then -x else x, format, mode)
    requires flags == if x == Dyadic(h, q) then 0
                      else if q == LeastQuantum(format) && n < Pow2(format.fractionBits) then FFLAG_UF + FFLAG_NX
                      else FFLAG_NX
    ensures Delivers(if negative then -x else x, bits, flags, format, mode)
  {
    hide Dyadic, Pow2, Known, Magnitude, IsRounding, FinitePattern, SignBit, Overflows, LeastQuantum;
    GridRoundingIsRounding(x, h, n, q, negative, mode, bits, format);
    DyadicOrder(h, h + 1, q);
    SubnormalSize(n, q, format);
  }

  lemma SubnormalSize(n: nat, q: int, format: BinaryFormat)
    requires q >= LeastQuantum(format) && (q > LeastQuantum(format) ==> n >= Pow2(format.fractionBits))
    ensures Dyadic(n, q) < MinNormal(format) <==> q == LeastQuantum(format) && n < Pow2(format.fractionBits)
  {
    var least, f := LeastQuantum(format), format.fractionBits;
    DyadicOrder(n, Pow2(f), least);
    if q > least {
      DyadicShl(n, q - least, least);
      ShlMono(n, n, q - least);
      DyadicOrder(Shl(n, q - least), Pow2(f), least);
    }
  }

  // ---- the two finite paths of the routine ----

  /** What both paths start from: the value on the grid of quantum q. */
  lemma GridStep(m: nat, e: int, shift: int, negative: bool, mode: nat)
    returns (h: nat)
    requires ValidRoundingMode(mode) && m > 0
    requires BitLen(m) - shift <= 53
    ensures var (n, inexact) := if shift > 0 then RoundBig(m, shift, negative, mode) else (Low(Shl(m, -shift), 64), false);
            && RoundedOnGrid(Dyadic(m, e), h, n, e + shift, negative, mode)
            && (inexact <==> Dyadic(m, e) != Dyadic(h, e + shift))
    ensures BitLen(m) - shift >= 0 ==> h < Pow2(BitLen(m) - shift)
    ensures BitLen(m) - shift > 0 ==> Pow2(BitLen(m) - shift - 1) <= h
    ensures BitLen(m) - shift < 0 ==> h == 0
  {
    hide Dyadic, Shr, Low, Shl, RoundBig, RoundedOnGrid, Pow2, BitLen;
    var length := BitLen(m);
    Pow2Double();
    if shift > 0 {
      h := Shr(m, shift);
      ShrLength(m, shift);
      if length - shift >= 0 { Pow2Mono(length - shift, 53); }
      RoundBigIsRounded(m, e, shift, negative, mode);
    } else {
      h := Shl(m, -shift);
      BitLenShl(m, -shift);
      Pow2Mono(length - shift, 53);
      SmallNumber(h, 64);
      ExactOnGrid(m, e, -shift, negative, mode);
    }
  }

  lemma ShrLength(m: nat, k: nat)
    requires m > 0
    ensures BitLen(m) >= k ==> Shr(m, k) < Pow2(BitLen(m) - k)
    ensures BitLen(m) > k ==> Pow2(BitLen(m) - k - 1) <= Shr(m, k)
    ensures BitLen(m) < k ==> Shr(m, k) == 0
  {
    var n := BitLen(m);
    if n >= k {
      Pow2Shl(n - k, k);
      ShrBounds(m, k, Pow2(n - k));
    } else {
      Pow2Mono(n, k);
      SmallNumber(m, k);
    }
    if n > k {
      Pow2Shl(n - k - 1, k);
      ShrBounds(m, k, Pow2(n - k - 1));
    }
  }

  /** The normal path: significand of full precision, possibly carrying into the next binade. */
  lemma NormalBits(n: nat, field: nat, negative: bool, format: BinaryFormat)
    requires Known(format)
    requires Pow2(format.fractionBits) <= n <= Pow2(format.fractionBits + 1)
    requires 1 <= field && field + (if n == Pow2(format.fractionBits + 1) then 1 else 0) <= 2 * format.bias
    ensures var carried := n == Shl(1, format.precision);
            var significand := if carried then Shr(n, 1) else n;
            var signBit := if negative then format.signMask else 0;
            var fraction := BitAnd(significand, Pow2(format.fractionBits) - 1);
            var encoded := Shl(if carried then field + 1 else field, format.fractionBits);
            var bits := BitOr(BitOr(signBit, encoded), fraction);
            && FinitePattern(bits, format) && SignBit(bits, format) == negative
            && Magnitude(bits, format) == Dyadic(n, field - format.bias - format.fractionBits)
            && bits % 2 == n % 2
  {
    hide BitAnd, BitOr, Dyadic, Magnitude, FinitePattern, SignBit, Pack, Low, Shl, Shr, Pow2, Known;
    var f := format.fractionBits;
    FormatShape(format);
    Pow2Next(f);
    Pow2Next(f - 1);
    Pow2Next(ExponentBits(format) - 1);
    ShlOne(f + 1);
    var carried := n == Pow2(f + 1);
    var significand := if carried then Shr(n, 1) else n;
    assert carried ==> significand == Pow2(f) by { HalfOf(n); }
    AndMask(significand, f);
    ShlOne(f);
    DivideUnique(significand, f, 1, significand - Pow2(f));
    var place := if carried then field + 1 else field;
    OrPacks(negative, place, significand - Pow2(f), format);
    NormalPattern(negative, place, significand, format);
    if carried {
      DyadicDouble(significand, field - format.bias - f);
    }
  }

  lemma HalfOf(n: nat)
    ensures Shr(n, 1) == n / 2
  {
    assert Shr(n, 1) == Shr(n / 2, 0);
  }

  lemma NormalPath(m: nat, e: int, negative: bool, format: BinaryFormat, mode: nat)
    requires Known(format) && ValidRoundingMode(mode) && m > 0
    requires 1 - format.bias <= e + BitLen(m) - 1 <= format.bias
    ensures var (bits, flags) := RoundBinary(m, e, negative, format, mode);
            Delivers(Exact(m, e, negative), bits, flags, format, mode)
  {
    hide Dyadic, Shr, Low, Shl, RoundBig, RoundedOnGrid, Pow2, BitLen, BitAnd, BitOr, Delivers, Overflows, Magnitude, FinitePattern, SignBit;
    var f := format.fractionBits;
    var top := e + BitLen(m) - 1;
    var shift := BitLen(m) - format.precision;
    FormatShape(format);
    BinadeBounds(m, e);
    var h := GridStep(m, e, shift, negative, mode);
    var (n, inexact) := if shift > 0 then RoundBig(m, shift, negative, mode) else (Low(Shl(m, -shift), 64), false);
    ShlOne(f + 1);
    GridNeighbours(Dyadic(m, e), h, n, e + shift, negative, mode);
    var x := Dyadic(m, e);
    if top == format.bias {
      CarryIsOverflow(x, h, n, negative, format, mode);
    } else {
      PowersOrdered(top + 1, format.bias);
      SmallDoesNotOverflow(Exact(m, e, negative), format, mode);
    }
    if top == format.bias && n == Pow2(f + 1) {
      OverflowResultIsRight(negative, format, mode);
      OverflowDelivery(x, negative, format, mode);
    } else {
      NormalBits(n, top + format.bias, negative, format);
      var (bits, flags) := RoundBinary(m, e, negative, format, mode);
      FiniteDelivery(x, h, n, e + shift, negative, mode, bits, flags, format);
    }
  }

  lemma GridNeighbours(x: real, h: nat, n: nat, q: int, negative: bool, mode: nat)
    requires RoundedOnGrid(x, h, n, q, negative, mode)
    ensures h <= n <= h + 1
  {
  }

  lemma OverflowDelivery(x: real, negative: bool, format: BinaryFormat, mode: nat)
    requires Known(format) && ValidRoundingMode(mode) && x > 0.0
    requires Overflows(if negative then -x else x, format, mode)
    ensures var (bits, flags) := OverflowResult(negative, format, mode);
            Delivers(if negative then -x else x, bits, flags, format, mode)
  {
    hide Overflows, IsOverflowResult, OverflowResult;
    OverflowResultIsRight(negative, format, mode);
  }

  lemma SubnormalBits(n: nat, negative: bool, format: BinaryFormat)
    requires Known(format) && n <= Pow2(format.fractionBits)
    ensures var signBit := if negative then format.signMask else 0;
            var bits := BitOr(signBit, if n >= Shl(1, format.precision - 1) then Shl(1, format.fractionBits) else n);
            && FinitePattern(bits, format) && SignBit(bits, format) == negative
            && Magnitude(bits, format) == Dyadic(n, LeastQuantum(format))
            && bits % 2 == n % 2
  {
    hide BitOr, Dyadic, Magnitude, FinitePattern, SignBit, Pack;
    FormatShape(format);
    ShlOne(format.fractionBits);
    if n == Pow2(format.fractionBits) {
      OrPacks(negative, 1, 0, format);
      NormalPattern(negative, 1, n, format);
    } else {
      OrPacks(negative, 0, n, format);
      SubnormalPattern(negative, n, format);
    }
  }

  lemma SubnormalPath(m: nat, e: int, negative: bool, format: BinaryFormat, mode: nat)
    requires Known(format) && ValidRoundingMode(mode) && m > 0
    requires e + BitLen(m) - 1 < 1 - format.bias
    ensures var (bits, flags) := RoundBinary(m, e, negative, format, mode);
            Delivers(Exact(m, e, negative), bits, flags, format, mode)
  {
    hide Dyadic, Shr, Low, Shl, RoundBig, RoundedOnGrid, Pow2, BitLen, BitAnd, BitOr, Delivers, Overflows, Magnitude, FinitePattern, SignBit;
    var f := format.fractionBits;
    var top := e + BitLen(m) - 1;
    var least := LeastQuantum(format);
    var shift := least - e;
    FormatShape(format);
    BinadeBounds(m, e);
    var h := GridStep(m, e, shift, negative, mode);
    var (n, inexact) := if shift > 0 then RoundBig(m, shift, negative, mode) else (Low(Shl(m, -shift), 64), false);
    GridNeighbours(Dyadic(m, e), h, n, least, negative, mode);
    if BitLen(m) - shift >= 0 { Pow2Mono(BitLen(m) - shift, f); }
    assert n <= Pow2(f);
    ShlOne(f);
    FlagUnions();
    PowersOrdered(top + 1, format.bias);
    SmallDoesNotOverflow(Exact(m, e, negative), format, mode);
    SubnormalBits(n, negative, format);
    var (bits, flags) := RoundBinary(m, e, negative, format, mode);
    FiniteDelivery(Dyadic(m, e), h, n, least, negative, mode, bits, flags, format);
  }

  /** Every nonzero number m * 2^e is delivered correctly rounded, in both formats and all five modes. */
  lemma RoundBinaryDelivers(m: nat, e: int, negative: bool, format: BinaryFormat, mode: nat)
    requires Known(format) && ValidRoundingMode(mode) && m > 0
    ensures var (bits, flags) := RoundBinary(m, e, negative, format, mode);
            Delivers(Exact(m, e, negative), bits, flags, format, mode)
  {
    hide Dyadic, RoundBig, Pow2, BitLen, BitAnd, BitOr, Delivers, Overflows;
    var top := e + BitLen(m) - 1;
    BinadeBounds(m, e);
    FormatShape(format);
    if top > format.bias {
      PowersOrdered(format.bias + 1, top);
      HugeOverflows(Exact(m, e, negative), format, mode);
      OverflowDelivery(Dyadic(m, e), negative, format, mode);
    } else if top >= 1 - format.bias {
      NormalPath(m, e, negative, format, mode);
    } else {
      SubnormalPath(m, e, negative, format, mode);
    }
  }
}
