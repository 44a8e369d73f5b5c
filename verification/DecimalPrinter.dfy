/** The loops of the decimal formatter over a growing vector of limbs. */
module DecimalPrinter {
  import opened Powers
  import opened ExactDecimal

  class DecimalInteger {
    var limbs: seq<Limb>

    constructor (value: nat)
      ensures limbs == Limbs(value)
    {
      var rest: nat := value;
      var digits: seq<Limb> := [];
      while rest != 0
        invariant digits + Limbs(rest) == Limbs(value)
      {
        digits := digits + [rest % BASE];
        rest := rest / BASE;
      }
      limbs := digits;
    }

    /** Multiplies limb by limb; what the top limb could not hold is returned. */
    method MultiplyLimbs(multiplier: nat) returns (carry: nat)
      modifies this
      ensures limbs + Limbs(carry) == Scale(old(limbs), multiplier, 0)
    {
      hide Product, Scale, Limbs;
      ghost var before := limbs;
      carry := 0;
      var i := 0;
      while i < |limbs|
        invariant 0 <= i <= |limbs| == |before| && limbs[i..] == before[i..]
        invariant limbs[..i] + Scale(limbs[i..], multiplier, carry) == Scale(before, multiplier, 0)
      {
        var product := Product(limbs[i], multiplier, carry);
        ghost var done, rest := limbs[..i], limbs[i..];
        ScaleNext(done, rest, multiplier, carry);
        limbs := limbs[i := product % BASE];
        assert limbs[..i + 1] == done + [product % BASE] && limbs[i + 1..] == rest[1..] == before[i + 1..];
        carry := product / BASE;
        i := i + 1;
      }
      assert limbs[i..] == [] && limbs[..i] == limbs;
      ScaleLast(multiplier, carry);
    }

    method AppendCarry(value: nat)
      modifies this
      ensures limbs == old(limbs) + Limbs(value)
    {
      hide Limbs;
      var carry: nat := value;
      while carry != 0
        invariant limbs + Limbs(carry) == old(limbs) + Limbs(value)
      {
        LimbsNext(carry);
        limbs := limbs + [carry % BASE];
        carry := carry / BASE;
      }
      LimbsNext(0);
    }

    method MulSmall(multiplier: nat)
      requires Normal(limbs) && multiplier > 0
      modifies this
      ensures limbs == Scale(old(limbs), multiplier, 0)
      ensures Normal(limbs) && Value(limbs) == old(Value(limbs)) * multiplier
    {
      hide Value, Scale, Limbs, Normal;
      ScaleValue(limbs, multiplier, 0);
      var carry := MultiplyLimbs(multiplier);
      AppendCarry(carry);
    }

    method ToString() returns (output: string)
      ensures output == Printed(limbs)
    {
      hide Padded, Decimal;
      if limbs == [] { return "0"; }
      var i := |limbs| - 1;
      output := Decimal(limbs[i]);
      assert limbs[i..] == [limbs[i]];
      while i > 0
        invariant 0 <= i < |limbs|
        invariant output == Printed(limbs[i..])
      {
        i := i - 1;
        assert limbs[i..][0] == limbs[i] && limbs[i..][1..] == limbs[i + 1..];
        output := output + Padded(limbs[i], 9);
      }
      assert limbs[0..] == limbs;
    }
  }

  lemma ScaleNext(done: seq<Limb>, rest: seq<Limb>, multiplier: nat, carry: nat)
    requires rest != []
    ensures var product := Product(rest[0], multiplier, carry);
            done + Scale(rest, multiplier, carry) == done + [product % BASE] + Scale(rest[1..], multiplier, product / BASE)
  {
    hide Product, Limbs;
  }

  lemma ScaleLast(multiplier: nat, carry: nat)
    ensures Scale([], multiplier, carry) == Limbs(carry)
  {
  }

  lemma LimbsNext(carry: nat)
    ensures Limbs(carry) == if carry == 0 then [] else [carry % BASE] + Limbs(carry / BASE)
  {
  }

  lemma OneMore(n: nat, k: nat)
    ensures Shl(n, k + 1) == Shl(n, k) * 2 && Fives(n, k + 1) == Fives(n, k) * 5
  {
  }

  lemma NothingScaled(n: nat)
    ensures Shl(n, 0) == n && Fives(n, 0) == n
  {
  }

  /** The digits of a significand doubled `count` times. */
  method DoubledDigits(significand: nat, count: nat) returns (digits: string)
    ensures digits == Printed(Limbs(Shl(significand, count)))
  {
    hide Limbs, Shl, Fives, Printed, Value, Scale;
    var integer := new DecimalInteger(significand);
    LimbsValue(significand);
    NothingScaled(significand);
    var k := 0;
    while k < count
      invariant 0 <= k <= count && Normal(integer.limbs) && Value(integer.limbs) == Shl(significand, k)
    {
      integer.MulSmall(2);
      OneMore(significand, k);
      k := k + 1;
    }
    LimbsUnique(integer.limbs);
    digits := integer.ToString();
  }

  /** The digits of a significand times five, `count` times. */
  method QuintupledDigits(significand: nat, count: nat) returns (digits: string)
    ensures digits == Printed(Limbs(Fives(significand, count)))
  {
    hide Limbs, Shl, Fives, Printed, Value, Scale;
    var integer := new DecimalInteger(significand);
    LimbsValue(significand);
    NothingScaled(significand);
    var k := 0;
    while k < count
      invariant 0 <= k <= count && Normal(integer.limbs) && Value(integer.limbs) == Fives(significand, k)
    {
      integer.MulSmall(5);
      OneMore(significand, k);
      k := k + 1;
    }
    LimbsUnique(integer.limbs);
    digits := integer.ToString();
  }

  method ExactBinaryDecimal(negative: bool, significand: nat, exponent: int) returns (text: string)
    ensures text == Text(ExactNumeral(negative, significand, exponent))
  {
    hide Limbs, Shl, Fives, Printed, Pointed;
    if significand == 0 { return if negative then "-0" else "0"; }
    if exponent >= 0 {
      text := DoubledDigits(significand, exponent);
    } else {
      var scale: nat := -exponent;
      var digits := QuintupledDigits(significand, scale);
      text := TrimPointed(digits, scale);
      SignedText(negative, digits, scale);
    }
    if negative { text := "-" + text; }
  }

  lemma SignedText(negative: bool, digits: string, scale: nat)
    ensures Text(Pointed(negative, digits, scale)) ==
            if negative then "-" + Text(Pointed(false, digits, scale)) else Text(Pointed(false, digits, scale))
  {
    hide Trimmed, Zeros;
    var n := Pointed(false, digits, scale);
    assert Pointed(negative, digits, scale) == n.(negative := negative);
    assert "-" + (n.whole + (if n.fraction == [] then "" else "." + n.fraction))
        == "-" + n.whole + (if n.fraction == [] then "" else "." + n.fraction);
    assert "" + n.whole == n.whole;
  }

  /** Sets the point, then drops what needs no printing. */
  method TrimPointed(digits: string, scale: nat) returns (text: string)
    requires AllDigits(digits) && scale > 0
    ensures text == Text(Pointed(false, digits, scale))
  {
    hide Trimmed;
    if |digits| <= scale {
      text := DropZeros("0", Zeros(scale - |digits|) + digits);
    } else {
      var split := |digits| - scale;
      text := DropZeros(digits[..split], digits[split..]);
    }
  }

  /** Drops zeros from the right of a pointed text, and the point if nothing is left behind it. */
  method DropZeros(whole: string, fraction: string) returns (text: string)
    requires AllDigits(fraction)
    ensures text == Text(Numeral(false, whole, Trimmed(fraction)))
  {
    text := whole + "." + fraction;
    ghost var kept := fraction;
    while text[|text| - 1] == '0'
      invariant text == whole + "." + kept && Trimmed(kept) == Trimmed(fraction) && AllDigits(kept)
      decreases |text|
    {
      LastCharacter(whole, kept);
      kept := kept[..|kept| - 1];
      text := text[..|text| - 1];
    }
    LastCharacter(whole, kept);
    if text[|text| - 1] == '.' {
      text := text[..|text| - 1];
    }
  }

  lemma LastCharacter(whole: string, kept: string)
    ensures var text := whole + "." + kept;
            text[|text| - 1] == if kept == [] then '.' else kept[|kept| - 1]
    ensures kept != [] ==> (whole + "." + kept)[..|whole + "." + kept| - 1] == whole + "." + kept[..|kept| - 1]
    ensures kept == [] ==> (whole + "." + kept)[..|whole + "." + kept| - 1] == whole
  {
  }
}
