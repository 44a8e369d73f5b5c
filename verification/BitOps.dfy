/** Bitwise operators on naturals, as the source applies them to raw bit
    patterns, and the arithmetic each mask or disjoint union stands for. */
module BitOps {
  import opened Powers

  function BitAnd(a: nat, b: nat): nat
  {
    if a == 0 || b == 0 then 0
    else 2 * BitAnd(a / 2, b / 2) + if a % 2 == 1 && b % 2 == 1 then 1 else 0
  }

  function BitOr(a: nat, b: nat): nat
  {
    if a == 0 then b else if b == 0 then a
    else 2 * BitOr(a / 2, b / 2) + if a % 2 == 1 || b % 2 == 1 then 1 else 0
  }

  function BitXor(a: nat, b: nat): nat
  {
    if a == 0 then b else if b == 0 then a
    else 2 * BitXor(a / 2, b / 2) + if a % 2 != b % 2 then 1 else 0
  }

  /** Bit n of a. */
  predicate Bit(a: nat, n: nat) { Shr(a, n) % 2 == 1 }

  lemma {:induction false} ZeroBits(n: nat)
    ensures Shr(0, n) == 0 && Low(0, n) == 0 && Shl(0, n) == 0
  {
    if n > 0 { ZeroBits(n - 1); }
  }

  lemma {:induction false} AndMask(a: nat, n: nat)
    ensures BitAnd(a, Pow2(n) - 1) == Low(a, n)
    decreases n
  {
    if n > 0 {
      AndMask(a / 2, n - 1);
      assert (Pow2(n) - 1) / 2 == Pow2(n - 1) - 1;
      ZeroBits(n);
    }
  }

  lemma {:induction false} AndShifted(a: nat, b: nat, n: nat)
    ensures BitAnd(a, Shl(b, n)) == Shl(BitAnd(Shr(a, n), b), n)
    decreases n
  {
    ZeroBits(n);
    if n > 0 { AndShifted(a / 2, b, n - 1); }
  }

  lemma AndOne(a: nat)
    ensures BitAnd(a, 1) == a % 2
  {
  }

  /** A one-bit mask picks the bit. */
  lemma AndBit(a: nat, n: nat)
    ensures BitAnd(a, Pow2(n)) == if Bit(a, n) then Pow2(n) else 0
  {
    ShlOne(n);
    AndShifted(a, 1, n);
    AndOne(Shr(a, n));
  }

  /** A mask of e ones above f zeros picks the field between. */
  lemma AndField(a: nat, e: nat, f: nat)
    ensures BitAnd(a, Shl(Pow2(e) - 1, f)) == Shl(Low(Shr(a, f), e), f)
  {
    AndShifted(a, Pow2(e) - 1, f);
    AndMask(Shr(a, f), e);
  }

  lemma {:induction false} OrCommutes(a: nat, b: nat)
    ensures BitOr(a, b) == BitOr(b, a)
    decreases a
  {
    if a != 0 && b != 0 { OrCommutes(a / 2, b / 2); }
  }

  /** Disjoint bits: or is addition. */
  lemma {:induction false} OrDisjoint(a: nat, b: nat, n: nat)
    requires b < Pow2(n)
    ensures BitOr(Shl(a, n), b) == BitOr(b, Shl(a, n)) == Shl(a, n) + b
    decreases n
  {
    if n > 0 { OrDisjoint(a, b / 2, n - 1); }
    OrCommutes(Shl(a, n), b);
  }

  lemma {:induction false} XorBit(a: nat, b: nat, n: nat)
    ensures Bit(BitXor(a, b), n) <==> Bit(a, n) != Bit(b, n)
    decreases n
  {
    ZeroBits(n);
    if a != 0 && b != 0 && n > 0 {
      XorBit(a / 2, b / 2, n - 1);
      assert BitXor(a, b) / 2 == BitXor(a / 2, b / 2);
    }
  }

  lemma {:induction false} OrBit(a: nat, b: nat, n: nat)
    ensures Bit(BitOr(a, b), n) <==> Bit(a, n) || Bit(b, n)
    decreases n
  {
    ZeroBits(n);
    if a != 0 && b != 0 && n > 0 {
      OrBit(a / 2, b / 2, n - 1);
      assert BitOr(a, b) / 2 == BitOr(a / 2, b / 2);
    }
  }

  lemma {:induction false} OrBound(a: nat, b: nat, n: nat)
    requires a < Pow2(n) && b < Pow2(n)
    ensures BitOr(a, b) < Pow2(n)
    decreases n
  {
    if n > 0 && a != 0 && b != 0 { OrBound(a / 2, b / 2, n - 1); }
  }

  /** Bit n of a conjunction. */
  lemma {:induction false} AndBitIs(a: nat, b: nat, n: nat)
    ensures Bit(BitAnd(a, b), n) <==> Bit(a, n) && Bit(b, n)
    decreases n
  {
    ZeroBits(n);
    if a != 0 && b != 0 && n > 0 {
      AndBitIs(a / 2, b / 2, n - 1);
      assert BitAnd(a, b) / 2 == BitAnd(a / 2, b / 2);
    }
  }

  lemma {:induction false} AndBound(a: nat, b: nat)
    ensures BitAnd(a, b) <= a
    decreases a
  {
    if a != 0 && b != 0 { AndBound(a / 2, b / 2); }
  }

  lemma {:induction false} XorBound(a: nat, b: nat, n: nat)
    requires a < Pow2(n) && b < Pow2(n)
    ensures BitXor(a, b) < Pow2(n)
    decreases n
  {
    if n > 0 && a != 0 && b != 0 { XorBound(a / 2, b / 2, n - 1); }
  }

  /** Numbers of n bits are determined by them. */
  lemma {:induction false} SameBits(a: nat, b: nat, n: nat)
    requires a < Pow2(n) && b < Pow2(n) && forall k: nat :: k < n ==> Bit(a, k) == Bit(b, k)
    ensures a == b
    decreases n
  {
    if n > 0 {
      assert Bit(a, 0) == Bit(b, 0);
      forall k: nat | k < n - 1 ensures Bit(a / 2, k) == Bit(b / 2, k) {
        assert Bit(a, k + 1) == Bit(b, k + 1);
      }
      SameBits(a / 2, b / 2, n - 1);
    }
  }
}
