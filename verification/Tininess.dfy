/** Underflow as section 7.5 of IEEE 754-2019 has it, detected after rounding, against the rule of
    the simulator's rounding routine, which looks at the delivered pattern. */
module Tininess {
  import opened Powers
  import opened BitOps
  import opened Ieee754
  import opened Rounding
  import opened RoundingProof
  import opened RoundingUnique
  import opened FloatOps

  // ---- rounding with an unbounded exponent range ----

  predicate Normalised(k: nat, format: BinaryFormat)
  {
    Pow2(format.fractionBits) <= k < Pow2(format.fractionBits + 1)
  }

  ghost predicate Scaled(v: real, k: nat, j: int)
  {
    Abs(v) == Dyadic(k, j)
  }

  /** The numbers of the format's precision, whatever their exponent. */
  ghost predicate OfPrecision(v: real, format: BinaryFormat)
  {
    v == 0.0 || exists k: nat, j: int :: Normalised(k, format) && Scaled(v, k, j)
  }

  ghost predicate EvenOfPrecision(v: real, format: BinaryFormat)
  {
    v == 0.0 || exists k: nat, j: int :: Normalised(k, format) && Scaled(v, k, j) && k % 2 == 0
  }

  ghost predicate Closest(x: real, v: real, format: BinaryFormat)
  {
    forall u :: OfPrecision(u, format) ==> Abs(x - v) <= Abs(x - u)
  }

  ghost predicate AsClose(x: real, v: real, u: real, format: BinaryFormat)
  {
    OfPrecision(u, format) && u != v && Abs(x - u) == Abs(x - v)
  }

  /** v is x rounded to the format's precision as though the exponent range were unbounded. */
  ghost predicate IsUnboundedRounding(x: real, v: real, format: BinaryFormat, mode: nat)
  {
    OfPrecision(v, format)
    && match mode
       case 0 => Closest(x, v, format) && ((exists u :: AsClose(x, v, u, format)) ==> EvenOfPrecision(v, format))
       case 1 => Abs(v) <= Abs(x)
         && forall u :: OfPrecision(u, format) && Abs(u) <= Abs(x) ==> Abs(x - v) <= Abs(x - u)
       case 2 => v <= x && forall u :: OfPrecision(u, format) && u <= x ==> u <= v
       case 3 => x <= v && forall u :: OfPrecision(u, format) && x <= u ==> v <= u
       case 4 => Closest(x, v, format) && forall u :: AsClose(x, v, u, format) ==> Abs(u) <= Abs(v)
       case _ => false
  }

  /** Tiny after rounding: so rounded, x stays below the least normal number. */
  ghost predicate TinyAfterRounding(x: real, format: BinaryFormat, mode: nat)
  {
    exists v :: IsUnboundedRounding(x, v, format, mode) && Abs(v) < MinNormal(format)
  }

  /** Underflow by section 7.5: tiny after rounding, and what is delivered is inexact. */
  ghost predicate StandardUnderflow(x: real, bits: nat, format: BinaryFormat, mode: nat)
  {
    TinyAfterRounding(x, format, mode) && RealValue(bits, format) != x
  }

  ghost function Quantum(format: BinaryFormat): real
  {
    Dyadic(1, LeastQuantum(format))
  }

  predicate ToNearest(mode: nat)
  {
    mode == ROUND_RNE || mode == ROUND_RMM
  }

  /** Numbers that the subnormal grid rounds up to the least normal number, although the twice finer grid of
      full precision does not. */
  ghost predicate RoundsUpTooSoon(x: real, format: BinaryFormat, mode: nat)
  {
    var y, top, q := Abs(x), MinNormal(format), Quantum(format);
    if ToNearest(mode) then top - q / 2.0 <= y < top - q / 4.0
    else if RoundsAway(x < 0.0, mode) then top - q < y <= top - q / 2.0
    else false
  }

  predicate Raises(flags: nat, flag: nat)
  {
    BitAnd(flags, flag) != 0
  }

  // ---- a boundary that no representable number comes close to from below ----

  /** y, rounded by some rule to v with nothing representable strictly between below and top, comes out
      below top. */
  ghost predicate StaysBelow(x: real, below: real, top: real, mode: nat)
  {
    var y := Abs(x);
    if ToNearest(mode) then y < (below + top) / 2.0
    else if RoundsAway(x < 0.0, mode) then y <= below
    else y < top
  }

  ghost function WithSign(negative: bool, y: real): real
  {
    if negative then -y else y
  }

  lemma QuantumParts(format: BinaryFormat)
    requires Known(format)
    ensures var f, least := format.fractionBits, LeastQuantum(format);
            && Dyadic(Pow2(f) - 1, least) == MinNormal(format) - Quantum(format)
            && Dyadic(Pow2(f + 1) - 1, least - 1) == MinNormal(format) - Quantum(format) / 2.0
            && 0.0 < Quantum(format) <= MinNormal(format) - Quantum(format)
  {
    hide Dyadic, Known;
    var f, least := format.fractionBits, LeastQuantum(format);
    FormatShape(format);
    Pow2Mono(1, f);
    DyadicSum(Pow2(f) - 1, 1, least);
    DyadicSum(Pow2(f + 1) - 1, 1, least - 1);
    DyadicDouble(1, least - 1);
    DyadicDouble(Pow2(f), least - 1);
    DyadicOrder(0, 1, least);
    DyadicOrder(1, Pow2(f) - 1, least);
  }

  // ---- the finer grid ----

  /** No number of the precision lies between the least normal number and the one before it. */
  lemma PrecisionGap(u: real, format: BinaryFormat)
    requires Known(format) && OfPrecision(u, format)
    ensures Abs(u) <= MinNormal(format) - Quantum(format) / 2.0 || Abs(u) >= MinNormal(format)
  {
    hide Dyadic, Known;
    QuantumParts(format);
    if u != 0.0 {
      var k: nat, j: int :| Normalised(k, format) && Scaled(u, k, j);
      NormalisedOrder(k, j, Pow2(format.fractionBits + 1) - 1, LeastQuantum(format) - 1, format);
      NormalisedOrder(Pow2(format.fractionBits), LeastQuantum(format), k, j, format);
    }
  }

  /** Normalised numbers are ordered by their exponents first. */
  lemma NormalisedOrder(k: nat, j: int, h: nat, i: int, format: BinaryFormat)
    requires Normalised(k, format) && Normalised(h, format)
    ensures Dyadic(k, j) <= Dyadic(h, i) <==> j < i || (j == i && k <= h)
    ensures Dyadic(k, j) == Dyadic(h, i) <==> j == i && k == h
  {
    hide Dyadic, Pow2;
    if j < i {
      BelowBinade(k, j, h, i, format.fractionBits);
    } else if i < j {
      BelowBinade(h, i, k, j, format.fractionBits);
    } else {
      DyadicOrder(k, h, i);
      DyadicOrder(h, k, i);
    }
  }

  lemma TopOfPrecision(negative: bool, format: BinaryFormat)
    requires Known(format)
    ensures OfPrecision(WithSign(negative, MinNormal(format)), format)
  {
    hide Dyadic, Known;
    FormatShape(format);
    QuantumParts(format);
    Pow2Mono(format.fractionBits, format.fractionBits + 1);
    assert Scaled(WithSign(negative, MinNormal(format)), Pow2(format.fractionBits), LeastQuantum(format));
  }

  /** The number before the least normal one is odd. */
  lemma BelowOfPrecision(negative: bool, format: BinaryFormat)
    requires Known(format)
    ensures var below := WithSign(negative, MinNormal(format) - Quantum(format) / 2.0);
            OfPrecision(below, format) && !EvenOfPrecision(below, format)
  {
    hide Dyadic, Known, MinNormal, Quantum;
    var f, least := format.fractionBits, LeastQuantum(format);
    QuantumParts(format);
    Pow2Next(f);
    var below := WithSign(negative, MinNormal(format) - Quantum(format) / 2.0);
    assert Scaled(below, Pow2(f + 1) - 1, least - 1);
    forall k: nat, j: int | Normalised(k, format) && Scaled(below, k, j) ensures k % 2 == 1 {
      NormalisedOrder(k, j, Pow2(f + 1) - 1, least - 1, format);
    }
  }

  /** Rounding to nearest, with ties going up to the boundary, passes it from the midpoint on. */
  lemma NearestBoundary(x: real, v: real, below: real, top: real)
    requires 0.0 < below < top && (Abs(v) <= below || Abs(v) >= top)
    requires Abs(x - v) <= Abs(x - WithSign(x < 0.0, top)) && Abs(x - v) <= Abs(x - WithSign(x < 0.0, below))
    requires v == WithSign(x < 0.0, below) ==> Abs(x - v) != Abs(x - WithSign(x < 0.0, top))
    ensures Abs(v) < top <==> Abs(x) < (below + top) / 2.0
  {
  }

  /** In a directed mode v leaves no room for u between itself and x. */
  ghost predicate NoCloser(x: real, v: real, u: real, mode: nat)
  {
    if mode == ROUND_RTZ then Abs(u) <= Abs(x) ==> Abs(x - v) <= Abs(x - u)
    else if mode == ROUND_RDN then u <= x ==> u <= v
    else x <= u ==> v <= u
  }

  /** Rounding in one direction passes the boundary from it on, or as soon as the number below it is passed. */
  lemma DirectedBoundary(x: real, v: real, below: real, top: real, mode: nat)
    requires 0.0 < below < top && (Abs(v) <= below || Abs(v) >= top) && 1 <= mode <= 3
    requires if mode == 1 then Abs(v) <= Abs(x) else if mode == 2 then v <= x else x <= v
    requires mode != 1 ==> if x < 0.0 then v <= 0.0 else 0.0 <= v
    requires NoCloser(x, v, WithSign(x < 0.0, top), mode) && NoCloser(x, v, WithSign(x < 0.0, below), mode)
    ensures Abs(v) < top <==> StaysBelow(x, below, top, mode)
  {
  }

  lemma PrecisionDirected(x: real, v: real, u: real, format: BinaryFormat, mode: nat)
    requires 1 <= mode <= 3 && IsUnboundedRounding(x, v, format, mode) && OfPrecision(u, format)
    ensures NoCloser(x, v, u, mode)
  {
    hide OfPrecision;
  }

  /** However x is rounded at full precision, it stays tiny exactly below the midpoint, or the boundary its
      direction gives. */
  lemma TinyIsBelow(x: real, v: real, format: BinaryFormat, mode: nat)
    requires Known(format) && ValidRoundingMode(mode) && IsUnboundedRounding(x, v, format, mode)
    ensures Abs(v) < MinNormal(format)
       <==> StaysBelow(x, MinNormal(format) - Quantum(format) / 2.0, MinNormal(format), mode)
  {
    hide Known, MinNormal, Quantum, OfPrecision, EvenOfPrecision, StaysBelow;
    var top, below := MinNormal(format), MinNormal(format) - Quantum(format) / 2.0;
    var t, b := WithSign(x < 0.0, top), WithSign(x < 0.0, below);
    QuantumParts(format);
    TopOfPrecision(x < 0.0, format);
    BelowOfPrecision(x < 0.0, format);
    PrecisionGap(v, format);
    if ToNearest(mode) {
      TieGoesUp(x, v, t, b, format, mode);
      NearestBoundary(x, v, below, top);
      assert StaysBelow(x, below, top, mode) <==> Abs(x) < (below + top) / 2.0 by { NearestStays(x, below, top, mode); }
    } else {
      ZeroOfPrecision(format);
      PrecisionDirected(x, v, t, format, mode);
      PrecisionDirected(x, v, b, format, mode);
      PrecisionDirected(x, v, 0.0, format, mode);
      DirectedBoundary(x, v, below, top, mode);
    }
  }

  lemma NearestStays(x: real, below: real, top: real, mode: nat)
    requires ToNearest(mode)
    ensures StaysBelow(x, below, top, mode) <==> Abs(x) < (below + top) / 2.0
  {
  }

  lemma TieGoesUp(x: real, v: real, t: real, b: real, format: BinaryFormat, mode: nat)
    requires ToNearest(mode) && IsUnboundedRounding(x, v, format, mode)
    requires OfPrecision(t, format) && OfPrecision(b, format) && !EvenOfPrecision(b, format) && Abs(b) < Abs(t)
    ensures Abs(x - v) <= Abs(x - t) && Abs(x - v) <= Abs(x - b)
    ensures v == b ==> Abs(x - v) != Abs(x - t)
  {
    hide OfPrecision, EvenOfPrecision;
    assert v == b ==> (AsClose(x, v, t, format) <==> Abs(x - t) == Abs(x - v));
  }

  lemma ZeroOfPrecision(format: BinaryFormat)
    ensures OfPrecision(0.0, format)
  {
  }

  // ---- the grid of the subnormal patterns ----

  lemma TopPattern(negative: bool, format: BinaryFormat) returns (top: nat)
    requires Known(format)
    ensures FinitePattern(top, format) && SignBit(top, format) == negative && Magnitude(top, format) == MinNormal(format)
  {
    hide Dyadic, Known, Magnitude, FinitePattern, SignBit, Pack, Pow2;
    var f := format.fractionBits;
    FormatShape(format);
    Pow2Next(f);
    NormalPattern(negative, 1, Pow2(f), format);
    top := Pack(negative, 1, 0, format);
  }

  /** The pattern before the least normal one is odd. */
  lemma BelowPattern(negative: bool, format: BinaryFormat) returns (below: nat)
    requires Known(format)
    ensures FinitePattern(below, format) && SignBit(below, format) == negative
    ensures Magnitude(below, format) == MinNormal(format) - Quantum(format) && below % 2 == 1
  {
    hide Dyadic, Known, Magnitude, FinitePattern, SignBit, Pack, MinNormal, Quantum, Pow2;
    var f := format.fractionBits;
    FormatShape(format);
    QuantumParts(format);
    Pow2Next(f - 1);
    SubnormalPattern(negative, Pow2(f) - 1, format);
    below := Pack(negative, 0, Pow2(f) - 1, format);
  }

  lemma PatternGap(b: nat, format: BinaryFormat)
    requires Known(format) && FinitePattern(b, format)
    ensures 0.0 <= Magnitude(b, format)
    ensures Magnitude(b, format) <= MinNormal(format) - Quantum(format) || Magnitude(b, format) >= MinNormal(format)
  {
    hide Dyadic, Known, Magnitude, FinitePattern;
    QuantumParts(format);
    CellIsEmpty(b, Pow2(format.fractionBits) - 1, LeastQuantum(format), format);
  }

  /** A correctly rounded pattern is below the normal range exactly below the midpoint of the coarser grid, or the
      boundary its direction gives. */
  lemma DeliveredIsBelow(x: real, bits: nat, format: BinaryFormat, mode: nat)
    requires Known(format) && ValidRoundingMode(mode) && FinitePattern(bits, format)
    requires SignBit(bits, format) == (x < 0.0) && IsRounding(x, bits, format, mode)
    ensures Magnitude(bits, format) < MinNormal(format)
       <==> StaysBelow(x, MinNormal(format) - Quantum(format), MinNormal(format), mode)
  {
    hide Known, MinNormal, Quantum, FinitePattern, Magnitude, SignBit, StaysBelow;
    var top := TopPattern(x < 0.0, format);
    var below := BelowPattern(x < 0.0, format);
    QuantumParts(format);
    PatternGap(bits, format);
    var t, b := WithSign(x < 0.0, MinNormal(format)), WithSign(x < 0.0, MinNormal(format) - Quantum(format));
    assert RealValue(top, format) == t && RealValue(below, format) == b;
    if ToNearest(mode) {
      if RealValue(bits, format) == b { PatternUnique(bits, below, format); }
      PatternTieGoesUp(x, bits, top, below, format, mode);
      NearestBoundary(x, RealValue(bits, format), MinNormal(format) - Quantum(format), MinNormal(format));
      NearestStays(x, MinNormal(format) - Quantum(format), MinNormal(format), mode);
    } else {
      PatternDirected(x, bits, top, format, mode);
      PatternDirected(x, bits, below, format, mode);
      DirectedBoundary(x, RealValue(bits, format), MinNormal(format) - Quantum(format), MinNormal(format), mode);
    }
  }

  lemma PatternDirected(x: real, bits: nat, b: nat, format: BinaryFormat, mode: nat)
    requires 1 <= mode <= 3 && IsRounding(x, bits, format, mode) && FinitePattern(b, format)
    ensures NoCloser(x, RealValue(bits, format), RealValue(b, format), mode)
  {
    hide FinitePattern, RealValue;
  }

  lemma PatternTieGoesUp(x: real, bits: nat, top: nat, below: nat, format: BinaryFormat, mode: nat)
    requires ToNearest(mode) && IsRounding(x, bits, format, mode)
    requires FinitePattern(top, format) && FinitePattern(below, format) && below % 2 == 1
    requires Abs(RealValue(below, format)) < Abs(RealValue(top, format))
    ensures Abs(x - RealValue(bits, format)) <= Abs(x - RealValue(top, format))
    ensures Abs(x - RealValue(bits, format)) <= Abs(x - RealValue(below, format))
    ensures bits == below ==> Abs(x - RealValue(bits, format)) != Abs(x - RealValue(top, format))
  {
    hide FinitePattern, RealValue;
    assert bits == below ==>
      (Tied(x, bits, top, format) <==> Abs(x - RealValue(top, format)) == Abs(x - RealValue(bits, format)));
  }

  // ---- every dyadic number has an unbounded rounding ----

  /** The number above a normalised one is normalised, perhaps one exponent higher. */
  lemma Above(h: nat, q: int, format: BinaryFormat) returns (k: nat, j: int)
    requires Normalised(h, format)
    ensures Normalised(k, format) && Dyadic(k, j) == Dyadic(h + 1, q) && (j == q || (j == q + 1 && k == Pow2(format.fractionBits)))
    ensures format.fractionBits > 0 ==> k % 2 == (h + 1) % 2
    ensures if j == q then k == h + 1 else h + 1 == Pow2(format.fractionBits + 1)
  {
    hide Dyadic, Pow2;
    var f := format.fractionBits;
    Pow2Next(f);
    if h + 1 < Pow2(f + 1) {
      k, j := h + 1, q;
    } else {
      k, j := Pow2(f), q + 1;
      DyadicDouble(Pow2(f), q);
      if f > 0 { PowerIsEven(f); }
      PowerIsEven(f + 1);
    }
  }

  lemma PowerIsEven(n: nat)
    requires n > 0
    ensures Pow2(n) % 2 == 0
  {
    hide Pow2;
    Pow2Next(n - 1);
  }

  lemma PrecisionCell(u: real, h: nat, q: int, format: BinaryFormat)
    requires Known(format) && OfPrecision(u, format) && Normalised(h, format)
    ensures Abs(u) <= Dyadic(h, q) || Abs(u) >= Dyadic(h + 1, q)
  {
    hide Dyadic, Known, Pow2;
    DyadicOrder(0, h, q);
    DyadicOrder(h, 0, q);
    if u != 0.0 {
      var k: nat, j: int :| Normalised(k, format) && Scaled(u, k, j);
      var i, p := Above(h, q, format);
      NormalisedOrder(k, j, h, q, format);
      NormalisedOrder(i, p, k, j, format);
    }
  }

  lemma NeighbourOfPrecision(n: nat, h: nat, q: int, negative: bool, format: BinaryFormat)
    requires Known(format) && Normalised(h, format) && (n == h || n == h + 1)
    ensures OfPrecision(WithSign(negative, Dyadic(n, q)), format)
    ensures n % 2 == 0 ==> EvenOfPrecision(WithSign(negative, Dyadic(n, q)), format)
  {
    hide Dyadic, Known, Pow2;
    FormatShape(format);
    DyadicOrder(n, 0, q);
    var v := WithSign(negative, Dyadic(n, q));
    var k, j := h, q;
    if n == h + 1 { k, j := Above(h, q, format); }
    assert Scaled(v, k, j);
  }

  /** A number rounded on the grid of full precision around it is rounded with an unbounded exponent. */
  lemma GridRoundingIsUnbounded(x: real, h: nat, n: nat, q: int, negative: bool, format: BinaryFormat, mode: nat)
    requires Known(format) && ValidRoundingMode(mode) && x > 0.0 && Normalised(h, format)
    requires RoundedOnGrid(x, h, n, q, negative, mode)
    ensures IsUnboundedRounding(WithSign(negative, x), WithSign(negative, Dyadic(n, q)), format, mode)
  {
    hide Dyadic, Known, OfPrecision, EvenOfPrecision, Normalised, IsUnboundedRounding;
    var low, high := Dyadic(h, q), Dyadic(h + 1, q);
    var s, v := WithSign(negative, x), WithSign(negative, Dyadic(n, q));
    DyadicOrder(0, h, q);
    DyadicOrder(h, 0, q);
    NeighbourOfPrecision(n, h, q, negative, format);
    forall u | OfPrecision(u, format) ensures Abs(u) <= low || Abs(u) >= high {
      PrecisionCell(u, h, q, format);
    }
    if ToNearest(mode) { CellNearest(s, v, low, high, format, mode); } else { CellToward(s, v, low, high, format, mode); }
  }

  /** An end of a cell around x that is no further than the other is no further than anything outside. */
  lemma CellEnd(s: real, v: real, u: real, low: real, high: real)
    requires s != 0.0 && 0.0 <= low <= Abs(s) < high && (Abs(u) <= low || Abs(u) >= high)
    requires v == WithSign(s < 0.0, low) || v == WithSign(s < 0.0, high)
    requires Abs(s - v) <= Abs(s) - low && Abs(s - v) <= high - Abs(s)
    ensures Abs(s - v) <= Abs(s - u)
    ensures Abs(s - u) == Abs(s - v) && u != v ==> Abs(s) - low == high - Abs(s)
    ensures Abs(s - u) == Abs(s - v) && v == WithSign(s < 0.0, high) ==> Abs(u) <= Abs(v)
  {
  }

  lemma CellNearest(s: real, v: real, low: real, high: real, format: BinaryFormat, mode: nat)
    requires ToNearest(mode) && OfPrecision(v, format)
    requires s != 0.0 && 0.0 <= low <= Abs(s) < high
    requires v == WithSign(s < 0.0, low) || v == WithSign(s < 0.0, high)
    requires Abs(s - v) <= Abs(s) - low && Abs(s - v) <= high - Abs(s)
    requires Abs(s) - low == high - Abs(s) ==>
               if mode == ROUND_RNE then EvenOfPrecision(v, format) else v == WithSign(s < 0.0, high)
    requires forall u :: OfPrecision(u, format) ==> Abs(u) <= low || Abs(u) >= high
    ensures IsUnboundedRounding(s, v, format, mode)
  {
    hide OfPrecision, EvenOfPrecision, Abs, WithSign;
    forall u | OfPrecision(u, format)
      ensures Abs(s - v) <= Abs(s - u)
      ensures AsClose(s, v, u, format) ==> if mode == ROUND_RNE then EvenOfPrecision(v, format) else Abs(u) <= Abs(v)
    {
      CellEnd(s, v, u, low, high);
    }
  }

  lemma CellToward(s: real, v: real, low: real, high: real, format: BinaryFormat, mode: nat)
    requires 1 <= mode <= 3 && OfPrecision(v, format)
    requires s != 0.0 && 0.0 <= low <= Abs(s) < high
    requires v == WithSign(s < 0.0, if RoundsAway(s < 0.0, mode) && Abs(s) > low then high else low)
    requires forall u :: OfPrecision(u, format) ==> Abs(u) <= low || Abs(u) >= high
    ensures IsUnboundedRounding(s, v, format, mode)
  {
    hide OfPrecision, EvenOfPrecision;
    forall u | OfPrecision(u, format) ensures NoCloser(s, v, u, mode) {
      CellDirected(s, v, u, low, high, mode);
    }
  }

  lemma CellDirected(s: real, v: real, u: real, low: real, high: real, mode: nat)
    requires s != 0.0 && 0.0 <= low <= Abs(s) < high && (Abs(u) <= low || Abs(u) >= high) && 1 <= mode <= 3
    requires v == WithSign(s < 0.0, if RoundsAway(s < 0.0, mode) && Abs(s) > low then high else low)
    ensures NoCloser(s, v, u, mode)
  {
  }

  lemma UnboundedRoundingExists(m: nat, e: int, negative: bool, format: BinaryFormat, mode: nat) returns (v: real)
    requires Known(format) && ValidRoundingMode(mode) && m > 0
    ensures IsUnboundedRounding(Exact(m, e, negative), v, format, mode)
  {
    hide Dyadic, RoundBig, Pow2, BitLen, Low, Shl, Known, IsUnboundedRounding, RoundedOnGrid;
    FormatShape(format);
    BinadeBounds(m, e);
    var shift := BitLen(m) - format.precision;
    var h := GridStep(m, e, shift, negative, mode);
    var (n, inexact) := if shift > 0 then RoundBig(m, shift, negative, mode) else (Low(Shl(m, -shift), 64), false);
    GridRoundingIsUnbounded(Dyadic(m, e), h, n, e + shift, negative, format, mode);
    v := WithSign(negative, Dyadic(n, e + shift));
  }

  // ---- the code's underflow against the standard's ----

  lemma FlagBits()
    ensures !Raises(0, FFLAG_UF) && !Raises(FFLAG_NX, FFLAG_UF) && !Raises(FFLAG_OF + FFLAG_NX, FFLAG_UF)
    ensures Raises(FFLAG_UF + FFLAG_NX, FFLAG_UF)
  {
    assert BitAnd(2, 1) == 2 * BitAnd(1, 0) == 0;
  }

  /** An overflowing number is not tiny. */
  lemma OverflowIsNotTiny(x: real, format: BinaryFormat, mode: nat)
    requires Known(format) && Overflows(x, format, mode)
    ensures Abs(x) >= MinNormal(format)
  {
    hide Dyadic, Pow2, MaxFinite, Known;
    FormatShape(format);
    Thresholds(format);
    DyadicShl(1, format.fractionBits, LeastQuantum(format));
    ShlOne(format.fractionBits);
    PowersOrdered(1 - format.bias, format.bias);
  }

  /** Whatever the routine delivers for a nonzero number: its UF is the standard's, except for the numbers that the
      subnormal grid rounds up too soon. Those are inexact and tiny, and get no UF. */
  lemma UnderflowOfDelivered(x: real, v: real, bits: nat, flags: nat, format: BinaryFormat, mode: nat)
    requires Known(format) && ValidRoundingMode(mode) && x != 0.0
    requires Delivers(x, bits, flags, format, mode) && IsUnboundedRounding(x, v, format, mode)
    ensures (Raises(flags, FFLAG_UF) <==> StandardUnderflow(x, bits, format, mode)) <==> !RoundsUpTooSoon(x, format, mode)
    ensures RoundsUpTooSoon(x, format, mode) ==> StandardUnderflow(x, bits, format, mode) && !Raises(flags, FFLAG_UF)
  {
    hide Known, MinNormal, Quantum, FinitePattern, Magnitude, SignBit, IsRounding, Overflows, IsUnboundedRounding, Raises;
    FlagBits();
    QuantumParts(format);
    TinyIsDetermined(x, v, format, mode);
    if Overflows(x, format, mode) {
      OverflowIsNotTiny(x, format, mode);
    } else {
      DeliveredIsBelow(x, bits, format, mode);
    }
  }

  lemma TinyIsDetermined(x: real, v: real, format: BinaryFormat, mode: nat)
    requires Known(format) && ValidRoundingMode(mode) && IsUnboundedRounding(x, v, format, mode)
    ensures TinyAfterRounding(x, format, mode)
       <==> StaysBelow(x, MinNormal(format) - Quantum(format) / 2.0, MinNormal(format), mode)
  {
    hide Known, MinNormal, Quantum, IsUnboundedRounding, StaysBelow;
    TinyIsBelow(x, v, format, mode);
    if TinyAfterRounding(x, format, mode) {
      var u :| IsUnboundedRounding(x, u, format, mode) && Abs(u) < MinNormal(format);
      TinyIsBelow(x, u, format, mode);
    }
  }

  /** The routine raises UF exactly when section 7.5 asks for it, if and only if the number is not one of those; for
      every nonzero number, exponent, sign, mode and format. */
  lemma UnderflowIsStandardIff(m: nat, e: int, negative: bool, format: BinaryFormat, mode: nat)
    requires Known(format) && ValidRoundingMode(mode) && m > 0
    ensures var (bits, flags) := RoundBinary(m, e, negative, format, mode);
            var x := Exact(m, e, negative);
            && ((Raises(flags, FFLAG_UF) <==> StandardUnderflow(x, bits, format, mode)) <==> !RoundsUpTooSoon(x, format, mode))
            && (RoundsUpTooSoon(x, format, mode) ==> StandardUnderflow(x, bits, format, mode) && !Raises(flags, FFLAG_UF))
  {
    hide Known, RoundBinary, Delivers, IsUnboundedRounding, StandardUnderflow, RoundsUpTooSoon, Raises, Dyadic;
    RoundBinaryDelivers(m, e, negative, format, mode);
    BinadeBounds(m, e);
    var (bits, flags) := RoundBinary(m, e, negative, format, mode);
    var v := UnboundedRoundingExists(m, e, negative, format, mode);
    UnderflowOfDelivered(Exact(m, e, negative), v, bits, flags, format, mode);
  }

  /** A multiple of the least quantum is never rounded up too soon. */
  lemma MultipleIsNotTooSoon(m: nat, e: int, negative: bool, format: BinaryFormat, mode: nat)
    requires Known(format) && e >= LeastQuantum(format)
    ensures !RoundsUpTooSoon(Exact(m, e, negative), format, mode)
  {
    hide Dyadic, Known, Pow2;
    var f, least := format.fractionBits, LeastQuantum(format);
    QuantumParts(format);
    DyadicShl(m, e - least, least);
    DyadicOrder(Shl(m, e - least), Pow2(f), least);
    DyadicOrder(Pow2(f) - 1, Shl(m, e - least), least);
    DyadicOrder(Shl(m, e - least), 0, least);
  }

  /** Conversion between formats meets section 7.5 on a number if and only if it is not rounded up too soon. */
  lemma ConversionUnderflow(value: nat, source: BinaryFormat, destination: BinaryFormat, mode: nat)
    requires Supported(source) && Supported(destination) && ValidRoundingMode(mode)
    requires FinitePattern(value, source) && RealValue(value, source) != 0.0
    ensures var (bits, flags) := ConvertBinary(value, source, destination, mode);
            var x := RealValue(value, source);
            (Raises(flags, FFLAG_UF) <==> StandardUnderflow(x, bits, destination, mode))
            <==> !RoundsUpTooSoon(x, destination, mode)
  {
    hide BitAnd, BitOr, Shl, Pow2, Dyadic, RoundBinary, FiniteComponents, IsNaN, IsInfinite, StandardUnderflow, RoundsUpTooSoon, Raises,
         IsPattern, IsFinite, IsNanBinary, IsInfiniteBinary, SignBit, Supported, Magnitude;
    SupportedIsKnown();
    MasksReadFields(value, source);
    ExactOfPattern(value, source);
    FiniteOnly(value, source);
    var (significand, exponent) := FiniteComponents(value, source);
    UnderflowIsStandardIff(significand, exponent, SignBit(value, source), destination, mode);
  }

  lemma FiniteOnly(value: nat, format: BinaryFormat)
    requires FinitePattern(value, format)
    ensures IsPattern(value, format) && !IsNaN(value, format) && !IsInfinite(value, format)
  {
  }

  /** Addition meets section 7.5 on every pair of finite numbers: no sum is rounded up too soon. */
  lemma AdditionUnderflow(left: nat, right: nat, format: BinaryFormat, mode: nat)
    requires Supported(format) && ValidRoundingMode(mode) && FinitePattern(left, format) && FinitePattern(right, format)
    requires RealValue(left, format) + RealValue(right, format) != 0.0
    ensures var (bits, flags) := AddBinary(left, right, format, mode);
            Raises(flags, FFLAG_UF) <==> StandardUnderflow(RealValue(left, format) + RealValue(right, format), bits, format, mode)
  {
    hide BitAnd, BitOr, BitXor, Shl, Pow2, Dyadic, RoundBinary, FiniteComponents, IsNaN, IsInfinite, StandardUnderflow, Exact,
         RoundsUpTooSoon, Raises, IsFinite, IsNanBinary, IsInfiniteBinary, SignBit, Supported, RealValue, Magnitude, IsPattern,
         SumMagnitudes, LeastQuantum;
    SupportedIsKnown();
    MasksReadFields(left, format);
    MasksReadFields(right, format);
    ExactOfPattern(left, format);
    ExactOfPattern(right, format);
    FiniteOnly(left, format);
    FiniteOnly(right, format);
    FiniteParts(left, format);
    FiniteParts(right, format);
    var (ls, le) := FiniteComponents(left, format);
    var (rs, re) := FiniteComponents(right, format);
    var common := if le < re then le else re;
    ExactSum(ls, le, SignBit(left, format), rs, re, SignBit(right, format), common, mode);
    var (negative, magnitude) :=
      SumMagnitudes(Shl(ls, le - common), SignBit(left, format), Shl(rs, re - common), SignBit(right, format), mode);
    UnderflowIsStandardIff(magnitude, common, negative, format, mode);
    MultipleIsNotTooSoon(magnitude, common, negative, format, mode);
  }

  // ---- two neighbouring inputs of FCVT.S.D ----

  lemma ExampleValue(value: nat, significand: nat)
    requires (value == 0x380f_ffff_e800_0000 && significand == 0x3ff_fffd) || (value == 0x380f_ffff_f800_0000 && significand == 0x3ff_ffff)
    ensures FinitePattern(value, FORMAT_D) && RealValue(value, FORMAT_D) == Dyadic(significand, -152)
  {
    hide Dyadic, Pow2, Shl, Low, Shr;
    Pow2Double();
    ShlIsProduct(896, 52);
    var fraction: nat := value - 0x3800_0000_0000_0000;
    UnpackPack(false, 896, fraction, FORMAT_D);
    ShlIsProduct(significand, 27);
    assert Pow2(27) == 0x800_0000 by { Pow2Bytes(); Pow2Plus3(24); }
    DyadicShl(significand, 27, -179);
  }

  lemma SingleBoundary()
    ensures MinNormal(FORMAT_S) == Dyadic(0x400_0000, -152)
    ensures Quantum(FORMAT_S) == Dyadic(8, -152) && Dyadic(8, -152) / 2.0 == Dyadic(4, -152) && Dyadic(4, -152) / 2.0 == Dyadic(2, -152)
  {
    hide Dyadic, Pow2;
    Pow2Single();
    DyadicDouble(0x200_0000, -152);
    DyadicDouble(0x100_0000, -151);
    DyadicDouble(0x80_0000, -150);
    DyadicDouble(4, -152);
    DyadicDouble(2, -151);
    DyadicDouble(1, -150);
    DyadicDouble(2, -152);
  }

  lemma Shl3(a: nat)
    ensures Shl(a, 3) == 8 * a
  {
    assert Shl(a, 2) == 2 * Shl(a, 1);
  }

  lemma ExampleDelivered(significand: nat)
    requires significand == 0x3ff_fffd || significand == 0x3ff_ffff
    ensures Delivers(Dyadic(significand, -152), 0x80_0000, FFLAG_NX, FORMAT_S, ROUND_RNE)
    ensures 0.0 < Dyadic(significand, -152) < MinNormal(FORMAT_S)
  {
    hide Dyadic, Pow2, Shl, FinitePattern, SignBit, Magnitude, Overflows, MinNormal, Delivers;
    var x := Dyadic(significand, -152);
    Pow2Single();
    SingleBoundary();
    ShlIsProduct(1, 23);
    NormalPattern(false, 1, 0x80_0000, FORMAT_S);
    Shl3(0x7f_ffff);
    Shl3(0x80_0000);
    DyadicShl(0x7f_ffff, 3, -152);
    DyadicShl(0x80_0000, 3, -152);
    DyadicOrder(0, significand, -152);
    DyadicOrder(0x3ff_fff8, significand, -152);
    DyadicOrder(significand, 0x400_0000, -152);
    ExampleSides(significand);
    BelowOne(significand);
    SmallDoesNotOverflow(x, FORMAT_S, ROUND_RNE);
    FiniteDelivery(x, 0x7f_ffff, 0x80_0000, -149, false, ROUND_RNE, 0x80_0000, FFLAG_NX, FORMAT_S);
  }

  /** On the subnormal grid both are nearer to the upper neighbour. */
  lemma ExampleSides(significand: nat)
    requires significand == 0x3ff_fffd || significand == 0x3ff_ffff
    ensures var x := Dyadic(significand, -152);
            x - Dyadic(0x3ff_fff8, -152) > Dyadic(0x400_0000, -152) - x
  {
    hide Dyadic;
    DyadicSum(significand, significand, -152);
    DyadicSum(0x3ff_fff8, 0x400_0000, -152);
    DyadicOrder(0x3ff_fff8 + 0x400_0000, significand + significand, -152);
  }

  lemma BelowOne(significand: nat)
    requires significand == 0x3ff_fffd || significand == 0x3ff_ffff
    ensures Dyadic(significand, -152) < Dyadic(1, FORMAT_S.bias)
  {
    hide Dyadic, Pow2, BitLen;
    BinadeBounds(significand, -152);
    Pow2Single();
    Pow2Next(24);
    Pow2Next(25);
    BitLenUnique(significand, 26);
    PowersOrdered(-126, 127);
  }

  /** The first narrows to the least normal number with NX alone, where section 7.5 asks for underflow too. */
  lemma DoubleRoundsUpTooSoon()
    ensures RealValue(0x380f_ffff_e800_0000, FORMAT_D) == Dyadic(0x3ff_fffd, -152)
    ensures ConvertBinary(0x380f_ffff_e800_0000, FORMAT_D, FORMAT_S, ROUND_RNE) == (0x80_0000, FFLAG_NX)
    ensures StandardUnderflow(RealValue(0x380f_ffff_e800_0000, FORMAT_D), 0x80_0000, FORMAT_S, ROUND_RNE)
  {
    hide ConvertBinary, RealValue, FinitePattern, Delivers, Dyadic, MinNormal, Quantum, StandardUnderflow;
    ExampleConverted(0x380f_ffff_e800_0000, 0x3ff_fffd);
    ConversionUnderflow(0x380f_ffff_e800_0000, FORMAT_D, FORMAT_S, ROUND_RNE);
    SingleBoundary();
    DyadicSum(0x3ff_fffc, 4, -152);
    DyadicSum(0x3ff_fffe, 2, -152);
    DyadicOrder(0x3ff_fffc, 0x3ff_fffd, -152);
    DyadicOrder(0x3ff_fffd, 0x3ff_fffe, -152);
    FlagBits();
  }

  /** The second also rounds up to the least normal number, but on the finer grid too: NX alone is right. */
  lemma DoubleRoundsUpRightly()
    ensures RealValue(0x380f_ffff_f800_0000, FORMAT_D) == Dyadic(0x3ff_ffff, -152)
    ensures ConvertBinary(0x380f_ffff_f800_0000, FORMAT_D, FORMAT_S, ROUND_RNE) == (0x80_0000, FFLAG_NX)
    ensures !StandardUnderflow(RealValue(0x380f_ffff_f800_0000, FORMAT_D), 0x80_0000, FORMAT_S, ROUND_RNE)
  {
    hide ConvertBinary, RealValue, FinitePattern, Delivers, Dyadic, MinNormal, Quantum, StandardUnderflow;
    ExampleConverted(0x380f_ffff_f800_0000, 0x3ff_ffff);
    ConversionUnderflow(0x380f_ffff_f800_0000, FORMAT_D, FORMAT_S, ROUND_RNE);
    SingleBoundary();
    DyadicSum(0x3ff_fffe, 2, -152);
    DyadicOrder(0x3ff_fffe, 0x3ff_ffff, -152);
    FlagBits();
  }

  lemma ExampleConverted(value: nat, significand: nat)
    requires (value == 0x380f_ffff_e800_0000 && significand == 0x3ff_fffd) || (value == 0x380f_ffff_f800_0000 && significand == 0x3ff_ffff)
    ensures FinitePattern(value, FORMAT_D) && RealValue(value, FORMAT_D) == Dyadic(significand, -152) > 0.0
    ensures ConvertBinary(value, FORMAT_D, FORMAT_S, ROUND_RNE) == (0x80_0000, FFLAG_NX)
  {
    hide ConvertBinary, FinitePattern, Delivers, Dyadic, MinNormal, IsNaN, IsInfinite, SignBit, SignedZero, Magnitude;
    ExampleValue(value, significand);
    ExampleDelivered(significand);
    assert IsPattern(value, FORMAT_D) && !IsNaN(value, FORMAT_D) && !IsInfinite(value, FORMAT_D) by {
      FiniteOnly(value, FORMAT_D);
    }
    ConvertBinaryIsCorrect(value, FORMAT_D, FORMAT_S, ROUND_RNE);
    var (bits, flags) := ConvertBinary(value, FORMAT_D, FORMAT_S, ROUND_RNE);
    DeliveryIsUnique(RealValue(value, FORMAT_D), bits, flags, 0x80_0000, FFLAG_NX, FORMAT_S, ROUND_RNE);
  }
}
