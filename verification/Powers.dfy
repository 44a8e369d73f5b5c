/** Shifts of naturals and dyadic reals k * 2^e, defined by doubling and halving
    so that every proof stays in linear arithmetic. */
module Powers {

  function Pow2(n: nat): (r: nat)
    ensures r >= 1
  {
    if n == 0 then 1 else 2 * Pow2(n - 1)
  }

  /** a * 2^n. */
  function Shl(a: nat, n: nat): nat
  {
    if n == 0 then a else 2 * Shl(a, n - 1)
  }

  /** The quotient of a by 2^n. */
  function Shr(a: nat, n: nat): nat
  {
    if n == 0 then a else Shr(a / 2, n - 1)
  }

  /** The remainder of a by 2^n. */
  function Low(a: nat, n: nat): nat
  {
    if n == 0 then 0 else 2 * Low(a / 2, n - 1) + a % 2
  }

  /** The shifts are multiplication and division by a power of two. */
  lemma {:induction false} ShlIsProduct(a: nat, n: nat)
    ensures Shl(a, n) == a * Pow2(n)
    decreases n
  {
    if n > 0 { ShlIsProduct(a, n - 1); }
  }

  lemma {:induction false} ShlOne(n: nat)
    ensures Shl(1, n) == Pow2(n)
    ensures Shl(0, n) == 0
  {
    if n > 0 { ShlOne(n - 1); }
  }

  lemma {:induction false} ShlSum(a: nat, b: nat, n: nat)
    ensures Shl(a + b, n) == Shl(a, n) + Shl(b, n)
    decreases n
  {
    if n > 0 { ShlSum(a, b, n - 1); }
  }

  lemma {:induction false} ShlAdd(a: nat, m: nat, n: nat)
    ensures Shl(Shl(a, m), n) == Shl(a, m + n)
    decreases n
  {
    if n > 0 { ShlAdd(a, m, n - 1); }
  }

  lemma {:induction false} ShlMono(a: nat, b: nat, n: nat)
    ensures a <= b <==> Shl(a, n) <= Shl(b, n)
    ensures a < b ==> Shl(a, n) + Pow2(n) <= Shl(b, n)
    ensures a <= Shl(a, n)
    decreases n
  {
    if n > 0 { ShlMono(a, b, n - 1); }
  }

  lemma {:induction false} Pow2Mono(a: nat, b: nat)
    ensures a <= b <==> Pow2(a) <= Pow2(b)
    ensures a < b ==> 2 * Pow2(a) <= Pow2(b)
    decreases a + b
  {
    if a > 0 && b > 0 { Pow2Mono(a - 1, b - 1); }
  }

  lemma Pow2Shl(m: nat, n: nat)
    ensures Shl(Pow2(m), n) == Pow2(m + n)
  {
    ShlOne(m);
    ShlAdd(1, m, n);
    ShlOne(m + n);
  }

  /** Quotient and remainder put the number back together. */
  lemma {:induction false} Divide(a: nat, n: nat)
    ensures a == Shl(Shr(a, n), n) + Low(a, n)
    ensures Low(a, n) < Pow2(n)
    decreases n
  {
    if n > 0 { Divide(a / 2, n - 1); }
  }

  /** Quotient and remainder are the only such pair. */
  lemma {:induction false} DivideUnique(a: nat, n: nat, q: nat, r: nat)
    requires a == Shl(q, n) + r && r < Pow2(n)
    ensures Shr(a, n) == q && Low(a, n) == r
    decreases n
  {
    if n > 0 { DivideUnique(a / 2, n - 1, q, r / 2); }
  }

  lemma SmallNumber(a: nat, n: nat)
    requires a < Pow2(n)
    ensures Shr(a, n) == 0 && Low(a, n) == a
  {
    ShlOne(n);
    DivideUnique(a, n, 0, a);
  }

  lemma {:induction false} ShrAdd(a: nat, m: nat, n: nat)
    ensures Shr(Shr(a, m), n) == Shr(a, m + n)
    ensures Low(a, m + n) == Shl(Low(Shr(a, m), n), m) + Low(a, m)
    decreases m
  {
    if m > 0 { ShrAdd(a / 2, m - 1, n); }
  }

  lemma ShrShl(a: nat, n: nat)
    ensures Shr(Shl(a, n), n) == a && Low(Shl(a, n), n) == 0
  {
    DivideUnique(Shl(a, n), n, a, 0);
  }

  lemma ShrBounds(a: nat, n: nat, b: nat)
    ensures a < Shl(b, n) <==> Shr(a, n) < b
  {
    Divide(a, n);
    var q := Shr(a, n);
    ShlMono(q, b, n);
    ShlMono(b, q, n);
  }

  /** Bit length: the k with 2^(k-1) <= n < 2^k, and 0 for 0. */
  function BitLen(n: nat): (k: nat)
    ensures n < Pow2(k)
    ensures n > 0 ==> k > 0 && Pow2(k - 1) <= n
    ensures n == 0 <==> k == 0
  {
    if n == 0 then 0 else 1 + BitLen(n / 2)
  }

  lemma BitLenUnique(n: nat, k: nat)
    requires k > 0 && Pow2(k - 1) <= n < Pow2(k)
    ensures BitLen(n) == k
  {
    Pow2Mono(BitLen(n), k - 1);
    Pow2Mono(k, BitLen(n) - 1);
  }

  lemma BitLenShl(n: nat, k: nat)
    requires n > 0
    ensures BitLen(Shl(n, k)) == BitLen(n) + k
  {
    hide Shl, Pow2, BitLen;
    var b := BitLen(n);
    Pow2Shl(b - 1, k);
    Pow2Shl(b, k);
    ShlMono(Pow2(b - 1), n, k);
    ShlMono(n, Pow2(b), k);
    BitLenUnique(Shl(n, k), b + k);
  }

  /** Splitting off bit n: the low n + 1 bits are the low n bits and bit n. */
  lemma LowNext(a: nat, n: nat)
    ensures Low(a, n + 1) == Shl(Shr(a, n) % 2, n) + Low(a, n)
  {
    ShrAdd(a, n, 1);
    assert Low(Shr(a, n), 1) == Shr(a, n) % 2;
  }

  /** The bit length of a number given by a top part and a smaller low part. */
  lemma BitLenTop(low: nat, top: nat, k: nat)
    requires low < Pow2(k) && top > 0
    ensures BitLen(low + Shl(top, k)) == k + BitLen(top)
  {
    hide Shl, Pow2, BitLen;
    var n := BitLen(top);
    Pow2Shl(n - 1, k);
    Pow2Shl(n, k);
    ShlMono(Pow2(n - 1), top, k);
    ShlMono(top, Pow2(n), k);
    BitLenUnique(low + Shl(top, k), k + n);
  }

  lemma Shl8(a: nat)
    ensures Shl(a, 8) == 0x100 * a
  {
    assert Shl(a, 2) == 2 * Shl(a, 1) == 4 * a;
    assert Shl(a, 4) == 2 * Shl(a, 3) == 4 * Shl(a, 2);
    assert Shl(a, 6) == 2 * Shl(a, 5) == 4 * Shl(a, 4);
    assert Shl(a, 8) == 2 * Shl(a, 7) == 4 * Shl(a, 6);
  }

  lemma Shl16(a: nat)
    ensures Shl(a, 16) == 0x1_0000 * a
  {
    Shl8(a);
    Shl8(Shl(a, 8));
    ShlAdd(a, 8, 8);
  }

  lemma Shl64(a: nat)
    ensures Shl(a, 64) == 0x1_0000_0000_0000_0000 * a
  {
    Shl16(a);
    Shl16(Shl(a, 16));
    ShlAdd(a, 16, 16);
    Shl16(Shl(a, 32));
    ShlAdd(a, 32, 16);
    Shl16(Shl(a, 48));
    ShlAdd(a, 48, 16);
  }

  lemma Pow2Plus8(n: nat)
    ensures Pow2(n + 8) == 0x100 * Pow2(n)
  {
    Pow2Shl(n, 8);
    Shl8(Pow2(n));
  }

  lemma Pow2Plus3(n: nat)
    ensures Pow2(n + 3) == 8 * Pow2(n)
  {
    assert Pow2(n + 3) == 2 * Pow2(n + 2) == 4 * Pow2(n + 1);
  }

  lemma Pow2Zero()
    ensures Pow2(0) == 1
  {
  }

  lemma Pow2Bytes()
    ensures Pow2(8) == 0x100 && Pow2(16) == 0x1_0000 && Pow2(24) == 0x100_0000 && Pow2(32) == 0x1_0000_0000
    ensures Pow2(40) == 0x100_0000_0000 && Pow2(48) == 0x1_0000_0000_0000
    ensures Pow2(56) == 0x100_0000_0000_0000 && Pow2(64) == 0x1_0000_0000_0000_0000
  {
    hide Pow2;
    Pow2Zero();
    Pow2Plus8(0);
    Pow2Plus8(8);
    Pow2Plus8(16);
    Pow2Plus8(24);
    Pow2Plus8(32);
    Pow2Plus8(40);
    Pow2Plus8(48);
    Pow2Plus8(56);
  }

  lemma Pow2Word()
    ensures Pow2(64) == 0x1_0000_0000_0000_0000
  {
    Pow2Bytes();
  }

  lemma Pow2Wide()
    ensures Pow2(128) == 0x1_0000_0000_0000_0000_0000_0000_0000_0000
  {
    hide Pow2;
    Pow2Bytes();
    Pow2Shl(64, 64);
    Shl64(Pow2(64));
  }

  lemma Pow2Single()
    ensures Pow2(7) == 0x80 && Pow2(8) == 0x100 && Pow2(10) == 0x400 && Pow2(11) == 0x800
    ensures Pow2(22) == 0x40_0000 && Pow2(23) == 0x80_0000 && Pow2(24) == 0x100_0000
    ensures Pow2(31) == 0x8000_0000 && Pow2(32) == 0x1_0000_0000
  {
    Pow2Bytes();
    Pow2Plus3(7);
    Pow2Plus3(8);
    Pow2Next(23);
    Pow2Next(22);
    Pow2Next(31);
    Pow2Next(7);
  }

  lemma Pow2Next(n: nat)
    ensures Pow2(n + 1) == 2 * Pow2(n)
  {
  }

  lemma Pow2Double()
    ensures Pow2(10) == 0x400 && Pow2(11) == 0x800
    ensures Pow2(51) == 0x8_0000_0000_0000 && Pow2(52) == 0x10_0000_0000_0000 && Pow2(53) == 0x20_0000_0000_0000
    ensures Pow2(63) == 0x8000_0000_0000_0000 && Pow2(64) == 0x1_0000_0000_0000_0000
  {
    Pow2Bytes();
    Pow2Plus3(8);
    Pow2Next(10);
    Pow2Plus3(48);
    Pow2Next(51);
    Pow2Next(52);
    Pow2Next(63);
  }

  /** k * 2^e as a real number. */
  ghost function Dyadic(k: int, e: int): real
    decreases if e < 0 then -e else e
  {
    if e == 0 then k as real
    else if e > 0 then 2.0 * Dyadic(k, e - 1)
    else Dyadic(k, e + 1) / 2.0
  }

  lemma {:induction false} DyadicSum(a: int, b: int, e: int)
    ensures Dyadic(a + b, e) == Dyadic(a, e) + Dyadic(b, e)
    ensures Dyadic(-a, e) == -Dyadic(a, e)
    decreases if e < 0 then -e else e
  {
    if e > 0 { DyadicSum(a, b, e - 1); }
    if e < 0 { DyadicSum(a, b, e + 1); }
  }

  lemma {:induction false} DyadicOrder(a: int, b: int, e: int)
    ensures a < b <==> Dyadic(a, e) < Dyadic(b, e)
    ensures a == b <==> Dyadic(a, e) == Dyadic(b, e)
    ensures Dyadic(0, e) == 0.0
    decreases if e < 0 then -e else e
  {
    if e > 0 { DyadicOrder(a, b, e - 1); }
    if e < 0 { DyadicOrder(a, b, e + 1); }
  }

  lemma {:induction false} DyadicDouble(k: int, e: int)
    ensures Dyadic(2 * k, e) == Dyadic(k, e + 1) == 2.0 * Dyadic(k, e)
    decreases if e < 0 then -e else e
  {
    if e > 0 { DyadicDouble(k, e - 1); }
    if e < 0 { DyadicDouble(k, e + 1); }
  }

  /** Scaling a significand moves its exponent. */
  lemma {:induction false} DyadicShl(k: nat, n: nat, e: int)
    ensures Dyadic(Shl(k, n), e) == Dyadic(k, e + n)
    decreases n
  {
    if n > 0 {
      DyadicShl(k, n - 1, e);
      DyadicDouble(Shl(k, n - 1), e);
      DyadicDouble(k, e + n - 1);
    }
  }
}
