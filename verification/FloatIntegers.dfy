/** Conversion of a floating-point number to an integer register (section 5.8 of
    IEEE 754-2019, section 11.7 of the RISC-V Unprivileged ISA 20191213). */
module FloatIntegers {
  import opened Bytes
  import opened Powers
  import opened BitOps
  import opened BigUints
  import opened Ieee754
  import opened Rounding
  import opened RoundingProof
  import opened FloatOps

  /** The integer n is the real x rounded in the given mode. */
  ghost predicate IsIntegerRounding(x: real, n: int, mode: nat)
  {
    var r := n as real;
    match mode
    case 0 => Abs(x - r) <= 0.5 && (Abs(x - r) == 0.5 ==> n % 2 == 0)
    case 1 => if x >= 0.0 then 0.0 <= r <= x < r + 1.0 else r - 1.0 < x <= r <= 0.0
    case 2 => r <= x < r + 1.0
    case 3 => r - 1.0 < x <= r
    case 4 => Abs(x - r) <= 0.5 && (Abs(x - r) == 0.5 ==> Abs(x) < Abs(r))
    case _ => false
  }

  /** Rounding to an integer has one answer. */
  lemma IntegerRoundingUnique(x: real, n: int, k: int, mode: nat)
    requires IsIntegerRounding(x, n, mode) && IsIntegerRounding(x, k, mode)
    ensures n == k
  {
    IntegersApart(n, k);
    IntegersApart(k, n);
  }

  lemma IntegersApart(n: int, k: int)
    ensures n < k ==> n as real + 1.0 <= k as real
  {
  }

  function MinInteger(signed: bool, bits: nat): int
  {
    if !signed then 0 else if bits == 32 then -0x8000_0000 else -0x8000_0000_0000_0000
  }

  function MaxInteger(signed: bool, bits: nat): int
  {
    if signed then if bits == 32 then 0x7fff_ffff else 0x7fff_ffff_ffff_ffff
    else if bits == 32 then 0xffff_ffff else 0xffff_ffff_ffff_ffff
  }

  /** A 64-bit register holding n: 32-bit results are sign-extended even when unsigned. */
  function RegisterImage(n: int, bits: nat): Word64
  {
    if bits == 32 then SignExtend32(n % 0x1_0000_0000) else n % 0x1_0000_0000_0000_0000
  }

  /** The image is n modulo 2^bits, and a 32-bit one repeats its top bit through the upper half. */
  lemma RegisterImageMeans(n: int, bits: nat)
    requires bits == 32 || bits == 64
    ensures if bits == 32 then
              RegisterImage(n, bits) % 0x1_0000_0000 == n % 0x1_0000_0000
              && (RegisterImage(n, bits) < 0x8000_0000 || RegisterImage(n, bits) >= 0xffff_ffff_8000_0000)
            else RegisterImage(n, bits) == n % 0x1_0000_0000_0000_0000
  {
  }

  /** The bounds of an integer register of 32 or 64 bits. */
  lemma IntegerBounds(signed: bool, bits: nat)
    requires bits == 32 || bits == 64
    ensures MaxInteger(signed, bits) - MinInteger(signed, bits) + 1 == Pow2(bits)
    ensures MinInteger(signed, bits) == if signed then 0 - Pow2(bits - 1) else 0
  {
    hide Pow2;
    Pow2Bytes();
    Pow2Next(31);
    Pow2Next(63);
  }

  lemma GridIsIntegerRounding(x: real, h: nat, n: nat, negative: bool, mode: nat)
    requires RoundedOnGrid(x, h, n, 0, negative, mode) && ValidRoundingMode(mode)
    requires x >= 0.0
    ensures IsIntegerRounding(if negative then -x else x, Signed(negative, n), mode)
  {
    assert Dyadic(h, 0) == h as real && Dyadic(h + 1, 0) == h as real + 1.0;
  }

  lemma MagnitudeIsRounded(significand: nat, exponent: int, negative: bool, mode: nat)
    requires ValidRoundingMode(mode) && significand < Pow2(53)
    ensures var (magnitude, inexact) := IntegerMagnitude(significand, exponent, negative, mode);
            var x := Exact(significand, exponent, negative);
            var n := Signed(negative, magnitude);
            && IsIntegerRounding(x, n, mode)
            && (inexact <==> x != n as real)
  {
    hide Dyadic, Pow2, Shl, Shr, Low, RoundBig, RoundedOnGrid, IsIntegerRounding;
    DyadicOrder(0, significand, exponent);
    DyadicOrder(significand, 0, exponent);
    var x := Dyadic(significand, exponent);
    DyadicAtZero();
    if exponent >= 0 {
      var magnitude := Shl(significand, exponent);
      DyadicShl(significand, exponent, 0);
      ExactOnGrid(magnitude, 0, 0, negative, mode);
      ShlZero(magnitude);
      GridIsIntegerRounding(x, magnitude, magnitude, negative, mode);
    } else {
      Pow2Double();
      ShrSmaller(significand, -exponent);
      RoundBigIsRounded(significand, exponent, -exponent, negative, mode);
      var (n, inexact) := RoundBig(significand, -exponent, negative, mode);
      GridIsIntegerRounding(x, Shr(significand, -exponent), n, negative, mode);
      ExactOnlyAtFloor(x, Shr(significand, -exponent), n, negative, mode);
    }
  }

  lemma DyadicAtZero()
    ensures forall k: int :: Dyadic(k, 0) == k as real
  {
  }

  lemma ShlZero(a: nat)
    ensures Shl(a, 0) == a
  {
  }

  lemma {:induction false} ShrSmaller(a: nat, n: nat)
    ensures Shr(a, n) <= a
    decreases n
  {
    if n > 0 { ShrSmaller(a / 2, n - 1); }
  }

  lemma ExactOnlyAtFloor(x: real, h: nat, n: nat, negative: bool, mode: nat)
    requires RoundedOnGrid(x, h, n, 0, negative, mode)
    ensures x == Dyadic(h, 0) <==> x == n as real
  {
    assert Dyadic(h, 0) == h as real && Dyadic(h + 1, 0) == h as real + 1.0;
  }

  /** In range: the register image, inexact only if rounding changed the number.
      Out of range: the nearest bound, with the invalid flag alone. */
  ghost predicate IntegerResult(n: int, inexact: bool, register: Word64, flags: nat, signed: bool, bits: nat)
  {
    if n < MinInteger(signed, bits) then
      register == RegisterImage(MinInteger(signed, bits), bits) && flags == FFLAG_NV
    else if n > MaxInteger(signed, bits) then
      register == RegisterImage(MaxInteger(signed, bits), bits) && flags == FFLAG_NV
    else
      register == RegisterImage(n, bits) && flags == if inexact then FFLAG_NX else 0
  }

  lemma PlacedCorrectly(magnitude: nat, inexact: bool, negative: bool, signed: bool, bits: nat)
    requires bits == 32 || bits == 64
    ensures var (register, flags) := PlaceInteger(magnitude, inexact, negative, signed, bits);
            IntegerResult(Signed(negative, magnitude), inexact, register, flags, signed, bits)
  {
    if bits == 32 { Placed32(magnitude, inexact, negative, signed); } else { Placed64(magnitude, inexact, negative, signed); }
  }

  lemma Placed32(magnitude: nat, inexact: bool, negative: bool, signed: bool)
    ensures var (register, flags) := PlaceInteger(magnitude, inexact, negative, signed, 32);
            IntegerResult(Signed(negative, magnitude), inexact, register, flags, signed, 32)
  {
    hide PlaceInteger, IntegerResult;
    if signed { PlacedSigned32(magnitude, inexact, negative); } else { PlacedUnsigned32(magnitude, inexact, negative); }
  }

  lemma PlacedSigned32(magnitude: nat, inexact: bool, negative: bool)
    ensures var (register, flags) := PlaceInteger(magnitude, inexact, negative, true, 32);
            IntegerResult(Signed(negative, magnitude), inexact, register, flags, true, 32)
  {
    hide SignExtend32;
    if magnitude <= 0x8000_0000 {
      SmallWord(magnitude);
      if negative && magnitude > 0 { NegatedWord(magnitude); }
    }
  }

  lemma PlacedUnsigned32(magnitude: nat, inexact: bool, negative: bool)
    ensures var (register, flags) := PlaceInteger(magnitude, inexact, negative, false, 32);
            IntegerResult(Signed(negative, magnitude), inexact, register, flags, false, 32)
  {
    hide SignExtend32;
    ZeroImage();
    if magnitude <= 0xffff_ffff { SmallWord(magnitude); }
  }

  lemma ZeroImage()
    ensures SignExtend32(0) == 0
  {
  }

  lemma SmallWord(n: nat)
    requires n <= 0xffff_ffff
    ensures n % 0x1_0000_0000 == n && n % 0x1_0000_0000_0000_0000 == n
  {
  }

  lemma NegatedWord(n: nat)
    requires 0 < n <= 0x8000_0000
    ensures (0 - n) % 0x1_0000_0000_0000_0000 == 0x1_0000_0000_0000_0000 - n
    ensures (0x1_0000_0000_0000_0000 - n) % 0x1_0000_0000 == 0x1_0000_0000 - n == (0 - n) % 0x1_0000_0000
  {
  }

  lemma Placed64(magnitude: nat, inexact: bool, negative: bool, signed: bool)
    ensures var (register, flags) := PlaceInteger(magnitude, inexact, negative, signed, 64);
            IntegerResult(Signed(negative, magnitude), inexact, register, flags, signed, 64)
  {
  }

  /** What conversion to an integer register leaves: infinities saturate by sign, NaNs too, and every finite number is
      rounded to n, which saturates when it is out of range. */
  ghost predicate IsToInteger(value: nat, source: BinaryFormat, n: int, register: Word64, flags: nat, signed: bool, bits: nat, mode: nat)
    requires Supported(source)
  {
    if IsNaN(value, source) || IsInfinite(value, source) then
      flags == FFLAG_NV
      && register == RegisterImage(if SignBit(value, source) then MinInteger(signed, bits) else MaxInteger(signed, bits), bits)
    else
      IsIntegerRounding(RealValue(value, source), n, mode)
      && IntegerResult(n, RealValue(value, source) != n as real, register, flags, signed, bits)
  }

  lemma ConvertToIntegerIsCorrect(value: nat, source: BinaryFormat, signed: bool, bits: nat, mode: nat)
    returns (n: int)
    requires Supported(source) && ValidRoundingMode(mode) && IsPattern(value, source) && (bits == 32 || bits == 64)
    ensures var (register, flags) := ConvertBinaryToInteger(value, source, signed, bits, mode);
            IsToInteger(value, source, n, register, flags, signed, bits, mode)
  {
    hide BitAnd, Dyadic, Pow2, FiniteComponents, IntegerMagnitude, PlaceInteger, IntegerResult, IsIntegerRounding, IsNaN, IsInfinite,
         IsNanBinary, IsInfiniteBinary, SignBit, RealValue, IsPattern, Exact;
    MasksReadFields(value, source);
    n := 0;
    if !IsNaN(value, source) && !IsInfinite(value, source) {
      NotSpecialIsFinite(value, source);
      ExactOfPattern(value, source);
      var (significand, exponent) := FiniteComponents(value, source);
      FiniteParts(value, source);
      FormatShape(source);
      Pow2Mono(source.fractionBits + 1, 53);
      var negative := BitAnd(value, source.signMask) != 0;
      MagnitudeIsRounded(significand, exponent, negative, mode);
      var (magnitude, inexact) := IntegerMagnitude(significand, exponent, negative, mode);
      PlacedCorrectly(magnitude, inexact, negative, signed, bits);
      n := Signed(negative, magnitude);
    }
  }

  /** The ISA (table 11.1 of section 11.7) sends every NaN to the maximum. The simulator follows the
      sign bit, so it agrees exactly for NaNs whose sign bit is clear. */
  lemma NanConversionMatchesIsa(value: nat, source: BinaryFormat, signed: bool, bits: nat, mode: nat)
    requires Supported(source) && ValidRoundingMode(mode) && IsPattern(value, source) && (bits == 32 || bits == 64)
    requires IsNaN(value, source)
    ensures ConvertBinaryToInteger(value, source, signed, bits, mode) == (RegisterImage(MaxInteger(signed, bits), bits), FFLAG_NV)
            <==> !SignBit(value, source)
  {
    hide IsNaN, SignBit, ConvertBinaryToInteger, IsPattern;
    var n := ConvertToIntegerIsCorrect(value, source, signed, bits, mode);
  }

  /** A NaN the simulator sends to the minimum. */
  lemma NegativeNanExample()
    ensures IsNaN(0xffc0_0000, FORMAT_S)
    ensures ConvertBinaryToInteger(0xffc0_0000, FORMAT_S, true, 32, ROUND_RNE).0 != RegisterImage(MaxInteger(true, 32), 32)
  {
    Pow2Single();
    UnpackPack(true, 255, 0x40_0000, FORMAT_S);
    Shl8(255);
    ShlIsProduct(255, 23);
    assert Pack(true, 255, 0x40_0000, FORMAT_S) == 0xffc0_0000;
    NanConversionMatchesIsa(0xffc0_0000, FORMAT_S, true, 32, ROUND_RNE);
    var n := ConvertToIntegerIsCorrect(0xffc0_0000, FORMAT_S, true, 32, ROUND_RNE);
  }
}
