/** Exact decimal numerals of binary numbers: integers in limbs of nine decimal digits,
    multiplied by two or five, printed, and trimmed. */
module ExactDecimal {
  import opened Powers

  const BASE := 1_000_000_000

  type Limb = x: int | 0 <= x < 1_000_000_000

  // ---- what digits and numerals denote ----

  predicate IsDigit(c: char) { '0' <= c <= '9' }

  predicate AllDigits(s: string) { forall k :: 0 <= k < |s| ==> IsDigit(s[k]) }

  function Digit(c: char): (d: nat)
    requires IsDigit(c)
    ensures d < 10
  {
    c as int - '0' as int
  }

  function DigitChar(d: nat): (c: char)
    requires d < 10
    ensures IsDigit(c) && Digit(c) == d
  {
    (d + '0' as int) as char
  }

  /** The number a run of digits denotes. */
  function Whole(s: string): nat
    requires AllDigits(s)
  {
    if s == [] then 0 else 10 * Whole(s[..|s| - 1]) + Digit(s[|s| - 1])
  }

  /** n divided by ten k times. */
  ghost function Scaled(n: nat, k: nat): real
  {
    if k == 0 then n as real else Scaled(n, k - 1) / 10.0
  }

  /** n times ten, k times. */
  function Tens(n: nat, k: nat): nat
  {
    if k == 0 then n else 10 * Tens(n, k - 1)
  }

  function Fives(n: nat, k: nat): nat
  {
    if k == 0 then n else 5 * Fives(n, k - 1)
  }

  /** Digits, then perhaps a point and more digits. */
  datatype Numeral = Numeral(negative: bool, whole: string, fraction: string)

  predicate IsNumeral(n: Numeral)
  {
    n.whole != [] && AllDigits(n.whole) && AllDigits(n.fraction)
  }

  function Text(n: Numeral): string
  {
    (if n.negative then "-" else "") + n.whole + (if n.fraction == [] then "" else "." + n.fraction)
  }

  ghost function Magnitude(n: Numeral): real
    requires IsNumeral(n)
  {
    Whole(n.whole) as real + Scaled(Whole(n.fraction), |n.fraction|)
  }

  /** No digit can be left off: no leading zero but a lone one, no trailing zero after the point. */
  predicate Shortest(n: Numeral)
  {
    (|n.whole| > 1 ==> n.whole[0] != '0') && (n.fraction != [] ==> n.fraction[|n.fraction| - 1] != '0')
  }

  // ---- laws of digits ----

  lemma {:induction false} WholeJoin(a: string, b: string)
    requires AllDigits(a) && AllDigits(b)
    ensures AllDigits(a + b) && Whole(a + b) == Tens(Whole(a), |b|) + Whole(b)
    decreases |b|
  {
    if b == [] {
      assert a + b == a;
    } else {
      var last := |b| - 1;
      assert (a + b)[..|a + b| - 1] == a + b[..last];
      WholeJoin(a, b[..last]);
    }
  }

  lemma {:induction false} ScaledTens(n: nat, k: nat)
    ensures Scaled(Tens(n, k), k) == n as real
    decreases k
  {
    if k > 0 {
      ScaledTimes(10, Tens(n, k - 1), k - 1);
      ScaledTens(n, k - 1);
    }
  }

  lemma {:induction false} ScaledTimes(c: nat, n: nat, k: nat)
    requires c == 5 || c == 10
    ensures Scaled(c * n, k) == (c as real) * Scaled(n, k)
    decreases k
  {
    if k > 0 { ScaledTimes(c, n, k - 1); }
  }

  lemma {:induction false} ScaledSum(a: nat, b: nat, k: nat)
    ensures Scaled(a + b, k) == Scaled(a, k) + Scaled(b, k)
    decreases k
  {
    if k > 0 { ScaledSum(a, b, k - 1); }
  }

  /** Five to the k over ten to the k is one over two to the k. */
  lemma {:induction false} FivesOverTens(n: nat, k: int)
    requires k >= 0
    ensures Scaled(Fives(n, k), k) == Dyadic(n, -k)
    decreases k
  {
    if k > 0 {
      ScaledTimes(5, Fives(n, k - 1), k - 1);
      FivesOverTens(n, k - 1);
    }
  }

  // ---- limbs ----

  function Value(limbs: seq<Limb>): nat
  {
    if limbs == [] then 0 else limbs[0] + BASE * Value(limbs[1..])
  }

  /** No limb is missing its carry and the top one is not zero. */
  predicate Normal(limbs: seq<Limb>)
  {
    limbs != [] ==> limbs[|limbs| - 1] != 0
  }

  /** A number in limbs. */
  function Limbs(value: nat): seq<Limb>
  {
    if value == 0 then [] else [value % BASE] + Limbs(value / BASE)
  }

  lemma {:induction false} LimbsValue(value: nat)
    ensures Value(Limbs(value)) == value && Normal(Limbs(value)) && (value > 0 ==> Limbs(value) != [])
  {
    if value > 0 {
      LimbsValue(value / BASE);
      assert Limbs(value)[1..] == Limbs(value / BASE);
      assert value == value % BASE + BASE * (value / BASE);
    }
  }

  /** One limb times a small number, plus a carry. */
  function Product(limb: Limb, multiplier: nat, carry: nat): nat { limb * multiplier + carry }

  /** Limbs times a small number, plus a carry. */
  function Scale(limbs: seq<Limb>, multiplier: nat, carry: nat): seq<Limb>
  {
    if limbs == [] then Limbs(carry)
    else
      var product := Product(limbs[0], multiplier, carry);
      [product % BASE] + Scale(limbs[1..], multiplier, product / BASE)
  }

  lemma {:induction false} ScaleValue(limbs: seq<Limb>, multiplier: nat, carry: nat)
    requires Normal(limbs) && multiplier > 0
    ensures Value(Scale(limbs, multiplier, carry)) == Value(limbs) * multiplier + carry
    ensures Normal(Scale(limbs, multiplier, carry))
    ensures limbs != [] ==> Scale(limbs, multiplier, carry) != []
    decreases |limbs|
  {
    hide Limbs;
    if limbs == [] {
      LimbsValue(carry);
    } else {
      var product := Product(limbs[0], multiplier, carry);
      var rest := Scale(limbs[1..], multiplier, product / BASE);
      ScaleValue(limbs[1..], multiplier, product / BASE);
      assert Scale(limbs, multiplier, carry)[1..] == rest;
      Distribute(limbs[0], Value(limbs[1..]), multiplier);
      assert product == product % BASE + BASE * (product / BASE);
      if rest == [] {
        assert limbs[1..] == [];
        TopLimb(limbs[0], multiplier, carry);
      }
    }
  }

  lemma Distribute(a: nat, v: nat, m: nat)
    ensures (a + BASE * v) * m == a * m + BASE * (v * m)
  {
  }

  /** A lone limb whose product leaves no carry keeps a nonzero limb. */
  lemma TopLimb(limb: Limb, multiplier: nat, carry: nat)
    requires limb > 0 && multiplier > 0
    ensures limb * multiplier + carry > 0
  {
  }

  /** A number has only one form in normal limbs. */
  lemma {:induction false} LimbsUnique(limbs: seq<Limb>)
    requires Normal(limbs)
    ensures limbs == Limbs(Value(limbs))
    decreases |limbs|
  {
    if limbs != [] {
      var rest := limbs[1..];
      LimbsUnique(rest);
      QuotientOf(limbs[0], Value(rest));
      if rest == [] { assert Value(limbs) == limbs[0] > 0; } else { LimbsValue(Value(rest)); NotZero(Value(rest), rest); }
      assert limbs == [limbs[0]] + rest;
    }
  }

  lemma NotZero(value: nat, limbs: seq<Limb>)
    requires limbs == Limbs(value) && limbs != []
    ensures value > 0
  {
  }

  lemma QuotientOf(low: Limb, high: nat)
    ensures (low + BASE * high) % BASE == low && (low + BASE * high) / BASE == high
  {
  }

  // ---- printing ----

  function Decimal(n: nat): (s: string)
    ensures s != [] && AllDigits(s)
  {
    if n < 10 then [DigitChar(n)] else Decimal(n / 10) + [DigitChar(n % 10)]
  }

  lemma {:induction false} DecimalValue(n: nat)
    ensures Whole(Decimal(n)) == n && (n > 0 ==> Decimal(n)[0] != '0')
  {
    if n >= 10 {
      DecimalValue(n / 10);
      var s := Decimal(n);
      assert s[..|s| - 1] == Decimal(n / 10);
    } else {
      assert Decimal(n)[..0] == [];
    }
  }

  /** The last `width` digits of a number, with zeros in front. */
  function Padded(n: nat, width: nat): (s: string)
    ensures |s| == width && AllDigits(s)
  {
    if width == 0 then "" else Padded(n / 10, width - 1) + [DigitChar(n % 10)]
  }

  lemma {:induction false} PaddedValue(n: nat, width: nat)
    requires n < Tens(1, width)
    ensures Whole(Padded(n, width)) == n
    decreases width
  {
    if width > 0 {
      PaddedValue(n / 10, width - 1);
      var s := Padded(n, width);
      assert s[..|s| - 1] == Padded(n / 10, width - 1);
    }
  }

  function Printed(limbs: seq<Limb>): (s: string)
    ensures s != [] && AllDigits(s)
  {
    if limbs == [] then "0"
    else if |limbs| == 1 then Decimal(limbs[0])
    else Printed(limbs[1..]) + Padded(limbs[0], 9)
  }

  lemma NineTens(v: nat)
    ensures Tens(v, 9) == BASE * v && Tens(1, 9) == BASE
  {
    assert Tens(v, 3) == 10 * Tens(v, 2) == 100 * Tens(v, 1) == 1000 * v;
    assert Tens(v, 6) == 10 * Tens(v, 5) == 100 * Tens(v, 4) == 1000 * Tens(v, 3);
    assert Tens(v, 9) == 10 * Tens(v, 8) == 100 * Tens(v, 7) == 1000 * Tens(v, 6);
    assert Tens(1, 3) == 10 * Tens(1, 2) == 100 * Tens(1, 1) == 1000;
    assert Tens(1, 6) == 10 * Tens(1, 5) == 100 * Tens(1, 4) == 1000 * Tens(1, 3);
    assert Tens(1, 9) == 10 * Tens(1, 8) == 100 * Tens(1, 7) == 1000 * Tens(1, 6);
  }

  /** The printed digits denote the number, without a leading zero. */
  lemma {:induction false} PrintedValue(limbs: seq<Limb>)
    requires Normal(limbs)
    ensures Whole(Printed(limbs)) == Value(limbs) && (limbs != [] ==> Printed(limbs)[0] != '0')
    decreases |limbs|
  {
    if |limbs| == 1 {
      DecimalValue(limbs[0]);
      assert limbs[1..] == [];
    } else if limbs == [] {
      assert "0"[..0] == [];
    } else {
      var rest := limbs[1..];
      PrintedValue(rest);
      NineTens(Value(rest));
      PaddedValue(limbs[0], 9);
      WholeJoin(Printed(rest), Padded(limbs[0], 9));
    }
  }

  // ---- the numeral ----

  function Zeros(k: nat): (s: string)
    ensures |s| == k && AllDigits(s)
  {
    seq(k, i => '0')
  }

  /** Digits without their trailing zeros. */
  function Trimmed(s: string): (t: string)
    ensures t <= s && (t != [] ==> t[|t| - 1] != '0')
  {
    if s != [] && s[|s| - 1] == '0' then Trimmed(s[..|s| - 1]) else s
  }

  /** The point set `scale` digits from the right. */
  function Pointed(negative: bool, digits: string, scale: nat): Numeral
  {
    if |digits| <= scale then Numeral(negative, "0", Trimmed(Zeros(scale - |digits|) + digits))
    else Numeral(negative, digits[..|digits| - scale], Trimmed(digits[|digits| - scale..]))
  }

  function ExactNumeral(negative: bool, significand: nat, exponent: int): Numeral
  {
    if significand == 0 then Numeral(negative, "0", "")
    else if exponent >= 0 then Numeral(negative, Printed(Limbs(Shl(significand, exponent))), "")
    else Pointed(negative, Printed(Limbs(Fives(significand, -exponent))), -exponent)
  }

  lemma {:induction false} TrimmedValue(s: string)
    requires AllDigits(s)
    ensures Scaled(Whole(Trimmed(s)), |Trimmed(s)|) == Scaled(Whole(s), |s|)
    decreases |s|
  {
    if s != [] && s[|s| - 1] == '0' {
      var shorter := s[..|s| - 1];
      TrimmedValue(shorter);
      ScaledTimes(10, Whole(shorter), |shorter|);
    }
  }

  lemma {:induction false} ZerosValue(k: nat)
    ensures Whole(Zeros(k)) == 0
  {
    if k > 0 {
      ZerosValue(k - 1);
      assert Zeros(k)[..k - 1] == Zeros(k - 1);
    }
  }

  lemma {:induction false} TensZero(k: nat)
    ensures Tens(0, k) == 0
  {
    if k > 0 { TensZero(k - 1); }
  }

  lemma ShortPointed(digits: string, scale: nat)
    requires AllDigits(digits) && |digits| <= scale
    ensures var padded := Zeros(scale - |digits|) + digits;
            && AllDigits(padded) && Scaled(Whole(padded), |padded|) == Scaled(Whole(digits), scale)
    ensures AllDigits("0") && Whole("0") == 0
  {
    var zeros := Zeros(scale - |digits|);
    WholeJoin(zeros, digits);
    ZerosValue(scale - |digits|);
    TensZero(|digits|);
    assert "0"[..0] == [];
  }

  lemma LongPointed(digits: string, scale: nat)
    requires AllDigits(digits) && |digits| > scale
    ensures var whole, fraction := digits[..|digits| - scale], digits[|digits| - scale..];
            AllDigits(whole) && AllDigits(fraction)
            && Whole(whole) as real + Scaled(Whole(fraction), |fraction|) == Scaled(Whole(digits), scale)
  {
    var whole, fraction := digits[..|digits| - scale], digits[|digits| - scale..];
    assert digits == whole + fraction;
    WholeJoin(whole, fraction);
    ScaledSum(Tens(Whole(whole), scale), Whole(fraction), scale);
    ScaledTens(Whole(whole), scale);
  }

  lemma PointedValue(negative: bool, digits: string, scale: nat)
    requires AllDigits(digits) && digits != [] && digits[0] != '0'
    ensures var n := Pointed(negative, digits, scale);
            IsNumeral(n) && Shortest(n) && Magnitude(n) == Scaled(Whole(digits), scale) && n.negative == negative
  {
    hide Whole, Scaled, Trimmed, Zeros;
    if |digits| <= scale {
      ShortPointed(digits, scale);
      TrimmedValue(Zeros(scale - |digits|) + digits);
    } else {
      LongPointed(digits, scale);
      TrimmedValue(digits[|digits| - scale..]);
    }
  }

  lemma {:induction false} FivesPositive(n: nat, k: nat)
    requires n > 0
    ensures Fives(n, k) > 0
    decreases k
  {
    if k > 0 { FivesPositive(n, k - 1); }
  }

  /** For every significand and exponent the numeral denotes exactly plus or minus significand * 2^exponent, and
      no digit of it can be left off. */
  lemma ExactNumeralIsExact(negative: bool, significand: nat, exponent: int)
    ensures var n := ExactNumeral(negative, significand, exponent);
            && IsNumeral(n) && Shortest(n) && n.negative == negative
            && Magnitude(n) == Dyadic(significand, exponent)
  {
    hide Printed, Limbs, Pointed, Dyadic, Shl;
    if significand == 0 {
      assert Whole("0") == 0 by { assert "0"[..0] == []; }
      DyadicOrder(0, 0, exponent);
    } else if exponent >= 0 {
      var value := Shl(significand, exponent);
      ShlMono(significand, 0, exponent);
      LimbsValue(value);
      PrintedValue(Limbs(value));
      DyadicShl(significand, exponent, 0);
      DyadicUnit(value);
    } else {
      var scale: nat := -exponent;
      var value := Fives(significand, scale);
      FivesPositive(significand, scale);
      LimbsValue(value);
      PrintedValue(Limbs(value));
      PointedValue(negative, Printed(Limbs(value)), scale);
      FivesOverTens(significand, scale);
    }
  }

  lemma DyadicUnit(n: nat)
    ensures Dyadic(n, 0) == n as real
  {
  }

  // ---- reading the text ----

  function PointIn(text: string): (p: nat)
    ensures p <= |text| && (p < |text| ==> text[p] == '.') && forall k :: 0 <= k < p ==> text[k] != '.'
  {
    if text == [] || text[0] == '.' then 0 else 1 + PointIn(text[1..])
  }

  /** A decimal text as it is read: a minus sign if there is one, the digits before the point, those behind it. */
  function ReadText(text: string): Numeral
  {
    var negative := text != [] && text[0] == '-';
    var body := if negative then text[1..] else text;
    var p := PointIn(body);
    Numeral(negative, body[..p], if p < |body| then body[p + 1..] else [])
  }

  lemma BodyReadsBack(whole: string, fraction: string)
    requires AllDigits(whole) && AllDigits(fraction)
    ensures var body := whole + (if fraction == [] then "" else "." + fraction);
            && body[..PointIn(body)] == whole
            && fraction == (if PointIn(body) < |body| then body[PointIn(body) + 1..] else [])
            && ('.' in body <==> fraction != [])
  {
    var body := whole + (if fraction == [] then "" else "." + fraction);
    assert forall k :: 0 <= k < |whole| ==> body[k] == whole[k] && IsDigit(whole[k]);
    if fraction == [] {
      assert body == whole;
    } else {
      assert body[|whole|] == '.';
      assert body[|whole| + 1..] == fraction;
    }
  }

  lemma SignReads(body: string)
    requires body != [] && IsDigit(body[0])
    ensures ReadText("-" + body) == ReadText(body).(negative := true) && !ReadText(body).negative
    ensures '.' in "-" + body <==> '.' in body
  {
    hide PointIn;
    assert ("-" + body)[0] == '-' && ("-" + body)[1..] == body;
  }

  /** The text of a numeral reads as that numeral, and has a point exactly when digits follow it. */
  lemma TextReadsBack(n: Numeral)
    requires IsNumeral(n)
    ensures ReadText(Text(n)) == n
    ensures '.' in Text(n) <==> n.fraction != []
  {
    hide PointIn, AllDigits, ReadText, Text, IsDigit;
    var body := n.whole + (if n.fraction == [] then "" else "." + n.fraction);
    PlainReads(n.whole, n.fraction);
    SignReads(body);
    SignedBody(n, body);
  }

  lemma PlainReads(whole: string, fraction: string)
    requires AllDigits(whole) && AllDigits(fraction) && whole != []
    ensures var body := whole + (if fraction == [] then "" else "." + fraction);
            && body != [] && IsDigit(body[0]) && ReadText(body) == Numeral(false, whole, fraction)
            && ('.' in body <==> fraction != [])
  {
    hide PointIn, AllDigits;
    var body := whole + (if fraction == [] then "" else "." + fraction);
    BodyReadsBack(whole, fraction);
    FirstDigit(whole);
    assert body[0] == whole[0];
  }

  lemma FirstDigit(digits: string)
    requires AllDigits(digits) && digits != []
    ensures IsDigit(digits[0])
  {
  }

  lemma SignedBody(n: Numeral, body: string)
    requires body == n.whole + (if n.fraction == [] then "" else "." + n.fraction)
    ensures Text(n) == if n.negative then "-" + body else body
  {
    if n.negative {
      assert Text(n) == "-" + body;
    } else {
      assert Text(n) == body;
    }
  }
}
