/** The simulator's arbitrary-precision naturals: little-endian 64-bit limbs,
    rewritten in place by carry and borrow loops. Everything is tied to the
    natural number the limbs denote. */
module BigUints {
  import opened Bytes
  import opened Powers
  import opened BitOps

  datatype Ordering = Less | Equal | Greater

  /** The order of two integers. */
  function Compare(a: int, b: int): Ordering
  {
    if a < b then Less else if a == b then Equal else Greater
  }

  /** The natural a limb sequence denotes, least significant limb first. */
  function Value(limbs: seq<Word64>): nat
  {
    if limbs == [] then 0 else limbs[0] + 0x1_0000_0000_0000_0000 * Value(limbs[1..])
  }

  /** No leading zero limb. */
  predicate Normal(limbs: seq<Word64>)
  {
    limbs != [] ==> limbs[|limbs| - 1] != 0
  }

  function Zeros(n: nat): (s: seq<Word64>)
    ensures |s| == n && forall i :: 0 <= i < n ==> s[i] == 0
  {
    seq(n, i => 0)
  }

  // ---- what a limb sequence denotes ----

  lemma {:induction false} ValueConcat(a: seq<Word64>, b: seq<Word64>)
    ensures Value(a + b) == Value(a) + Shl(Value(b), 64 * |a|)
  {
    if a == [] {
      assert a + b == b;
    } else {
      ValueConcat(a[1..], b);
      assert (a + b)[1..] == a[1..] + b;
      ShlAdd(Value(b), 64 * |a[1..]|, 64);
      Shl64(Shl(Value(b), 64 * |a[1..]|));
    }
  }

  lemma ValueSnoc(a: seq<Word64>, x: Word64)
    ensures Value(a + [x]) == Value(a) + Shl(x, 64 * |a|)
  {
    ValueConcat(a, [x]);
    assert Value([x]) == x by { assert [x][1..] == []; }
  }

  lemma {:induction false} ValueBound(a: seq<Word64>)
    ensures Value(a) < Pow2(64 * |a|)
  {
    if a != [] {
      ValueBound(a[1..]);
      Pow2Shl(64 * |a[1..]|, 64);
      Shl64(Pow2(64 * |a[1..]|));
    }
  }

  predicate AllZero(limbs: seq<Word64>, n: nat)
    requires n <= |limbs|
  {
    forall i :: 0 <= i < n ==> limbs[i] == 0
  }

  lemma {:induction false} ValueZero(a: seq<Word64>)
    ensures Value(a) == 0 <==> AllZero(a, |a|)
  {
    if a != [] {
      ValueZero(a[1..]);
      assert AllZero(a, |a|) <==> a[0] == 0 && AllZero(a[1..], |a| - 1) by {
        assert forall i :: 0 <= i < |a| - 1 ==> a[1..][i] == a[i + 1];
        if a[0] == 0 && AllZero(a[1..], |a| - 1) {
          forall i | 0 <= i < |a| ensures a[i] == 0 { if i > 0 { assert a[1..][i - 1] == 0; } }
        }
      }
    }
  }

  lemma ValueSplit(a: seq<Word64>, k: nat)
    requires k <= |a|
    ensures Shr(Value(a), 64 * k) == Value(a[k..])
    ensures Low(Value(a), 64 * k) == Value(a[..k])
  {
    assert a == a[..k] + a[k..];
    ValueConcat(a[..k], a[k..]);
    ValueBound(a[..k]);
    DivideUnique(Value(a), 64 * k, Value(a[k..]), Value(a[..k]));
  }

  /** A sequence has no leading zero exactly when it is as long as its value needs. */
  lemma NormalByValue(a: seq<Word64>)
    requires a != []
    ensures Normal(a) <==> Pow2(64 * (|a| - 1)) <= Value(a)
  {
    var n := |a| - 1;
    assert a == a[..n] + [a[n]];
    ValueSnoc(a[..n], a[n]);
    ValueBound(a[..n]);
    ShlOne(64 * n);
    ShlMono(1, a[n], 64 * n);
  }

  /** Below bit 64, only the lowest limb matters. */
  lemma LowLimb(a: seq<Word64>, j: nat)
    requires a != [] && j < 64
    ensures Low(Value(a), j) == Low(a[0], j)
    ensures Shr(Value(a), j) % 2 == Shr(a[0], j) % 2
  {
    LowPart(a[0], Value(a[1..]), j);
  }

  lemma LowPart(x: nat, r: nat, j: nat)
    requires j < 64
    ensures Low(x + 0x1_0000_0000_0000_0000 * r, j) == Low(x, j)
    ensures Shr(x + 0x1_0000_0000_0000_0000 * r, j) % 2 == Shr(x, j) % 2
  {
    hide Shl, Shr, Low, Pow2;
    Shl64(r);
    var h := Shl(r, 63 - j);
    ShlAdd(r, 64 - j, j);
    ShlNext(r, 63 - j);
    Divide(x, j);
    ShlSum(2 * h, Shr(x, j), j);
    DivideUnique(x + 0x1_0000_0000_0000_0000 * r, j, 2 * h + Shr(x, j), Low(x, j));
    SameParity(h, Shr(x, j));
  }

  lemma ShlNext(a: nat, n: nat)
    ensures Shl(a, n + 1) == 2 * Shl(a, n)
  {
  }

  lemma SameParity(h: nat, y: nat)
    ensures (2 * h + y) % 2 == y % 2
  {
  }

  lemma LongerIsGreater(a: seq<Word64>, b: seq<Word64>)
    requires Normal(b) && |a| < |b|
    ensures Value(a) < Value(b)
  {
    ValueBound(a);
    NormalByValue(b);
    Pow2Mono(64 * |a|, 64 * (|b| - 1));
  }

  lemma LargeIsNormal(a: seq<Word64>, b: seq<Word64>)
    requires |a| == |b| && Normal(b) && Value(b) <= Value(a)
    ensures Normal(a)
  {
    if a != [] {
      NormalByValue(a);
      NormalByValue(b);
    }
  }

  lemma PadValue(a: seq<Word64>, n: nat)
    ensures Value(a + Zeros(n)) == Value(a)
    ensures Value(Zeros(n) + a) == Shl(Value(a), 64 * n)
  {
    ValueZero(Zeros(n));
    ValueConcat(a, Zeros(n));
    ValueConcat(Zeros(n), a);
    ZeroBits(64 * |a|);
  }

  lemma ValueEmpty()
    ensures Value([]) == 0 && Shl(0, 0) == 0
  {
  }

  // ---- reading limbs ----

  predicate BitAt(limbs: seq<Word64>, index: nat)
  {
    index / 64 < |limbs| && BitAnd(limbs[index / 64], Pow2(index % 64)) != 0
  }

  lemma BitAtValue(limbs: seq<Word64>, index: nat)
    ensures BitAt(limbs, index) <==> Bit(Value(limbs), index)
  {
    var k, j := index / 64, index % 64;
    if k < |limbs| {
      ValueSplit(limbs, k);
      ShrAdd(Value(limbs), 64 * k, j);
      LowLimb(limbs[k..], j);
      AndBit(limbs[k], j);
    } else {
      ValueBound(limbs);
      Pow2Mono(64 * |limbs|, index);
      SmallNumber(Value(limbs), index);
    }
  }

  predicate AnyBelowIn(limbs: seq<Word64>, exclusive: nat)
  {
    if exclusive == 0 then false
    else
      var full := if exclusive / 64 < |limbs| then exclusive / 64 else |limbs|;
      if !AllZero(limbs, full) then true
      else
        var remaining := exclusive % 64;
        remaining != 0 && full < |limbs| && BitAnd(limbs[full], Pow2(remaining) - 1) != 0
  }

  lemma AnyBelowValue(limbs: seq<Word64>, exclusive: nat)
    ensures AnyBelowIn(limbs, exclusive) <==> Low(Value(limbs), exclusive) != 0
  {
    if exclusive / 64 < |limbs| {
      AnyBelowLimb(limbs, exclusive / 64, exclusive % 64);
    } else {
      ValueBound(limbs);
      Pow2Mono(64 * |limbs|, exclusive);
      SmallNumber(Value(limbs), exclusive);
      ValueZero(limbs);
    }
  }

  lemma AnyBelowLimb(limbs: seq<Word64>, k: nat, r: nat)
    requires k < |limbs| && r < 64
    ensures Low(Value(limbs), 64 * k + r) == 0 <==>
            AllZero(limbs, k) && (r == 0 || BitAnd(limbs[k], Pow2(r) - 1) == 0)
  {
    hide *;
    ValueSplit(limbs, k);
    LowZero(Value(limbs), 64 * k, r);
    LowLimb(limbs[k..], r);
    AndMask(limbs[k], r);
    PrefixZero(limbs, k);
  }

  lemma LowZero(v: nat, k: nat, r: nat)
    ensures Low(v, k + r) == 0 <==> Low(Shr(v, k), r) == 0 && Low(v, k) == 0
  {
    ShrAdd(v, k, r);
    ZeroOnlyIfBoth(Low(Shr(v, k), r), k);
  }

  lemma PrefixZero(limbs: seq<Word64>, k: nat)
    requires k <= |limbs|
    ensures Value(limbs[..k]) == 0 <==> AllZero(limbs, k)
  {
    ValueZero(limbs[..k]);
    assert forall i :: 0 <= i < k ==> limbs[..k][i] == limbs[i];
  }

  lemma {:induction false} ZeroOnlyIfBoth(a: nat, n: nat)
    ensures Shl(a, n) == 0 <==> a == 0
    decreases n
  {
    if n > 0 { ZeroOnlyIfBoth(a, n - 1); }
  }

  /** The `count` bits from `shift` up, or-ed together one at a time. */
  function ShiftedFold(limbs: seq<Word64>, shift: nat, count: nat): nat
  {
    if count == 0 then 0
    else
      BitOr(ShiftedFold(limbs, shift, count - 1),
            Shl(if BitAt(limbs, shift + count - 1) then 1 else 0, count - 1))
  }

  lemma {:induction false} ShiftedFoldValue(limbs: seq<Word64>, shift: nat, count: nat)
    ensures ShiftedFold(limbs, shift, count) == Low(Shr(Value(limbs), shift), count)
    decreases count
  {
    hide Value, BitAt;
    if count > 0 {
      var c, v := count - 1, Shr(Value(limbs), shift);
      ShiftedFoldValue(limbs, shift, c);
      BitAtValue(limbs, shift + c);
      ShrAdd(Value(limbs), shift, c);
      LowNext(v, c);
      Divide(v, c);
      OrDisjoint(if BitAt(limbs, shift + c) then 1 else 0, Low(v, c), c);
    }
  }

  function CompareFromTop(a: seq<Word64>, b: seq<Word64>): Ordering
    requires |a| == |b|
  {
    if a == [] then Equal
    else
      var n := |a| - 1;
      if a[n] < b[n] then Less
      else if a[n] > b[n] then Greater
      else CompareFromTop(a[..n], b[..n])
  }

  lemma {:induction false} CompareFromTopValue(a: seq<Word64>, b: seq<Word64>)
    requires |a| == |b|
    ensures CompareFromTop(a, b) == Compare(Value(a), Value(b))
  {
    if a != [] {
      var n := |a| - 1;
      assert a == a[..n] + [a[n]] && b == b[..n] + [b[n]];
      ValueSnoc(a[..n], a[n]);
      ValueSnoc(b[..n], b[n]);
      ValueBound(a[..n]);
      ValueBound(b[..n]);
      CompareFromTopValue(a[..n], b[..n]);
      ShlMono(a[n], b[n], 64 * n);
      ShlMono(b[n], a[n], 64 * n);
    }
  }

  lemma TopLimbBits(limbs: seq<Word64>)
    requires limbs != [] && Normal(limbs)
    ensures BitLen(Value(limbs)) == (|limbs| - 1) * 64 + BitLen(limbs[|limbs| - 1])
  {
    hide Value, Shl, BitLen, Pow2;
    var k := |limbs| - 1;
    var t := limbs[k];
    assert limbs == limbs[..k] + [t];
    ValueSnoc(limbs[..k], t);
    ValueBound(limbs[..k]);
    BitLenTop(Value(limbs[..k]), t, 64 * k);
  }

  class BigUint {
    var limbs: seq<Word64>

    ghost predicate Valid()
      reads this
    {
      Normal(limbs)
    }

    ghost function Nat(): nat
      reads this
    {
      Value(limbs)
    }

    constructor FromU64(value: Word64)
      ensures Valid() && Nat() == value
    {
      limbs := if value == 0 then [] else [value];
      new;
      assert Value([value]) == value by { assert [value][1..] == []; }
      assert Value([]) == 0;
    }

    predicate IsZero()
      requires Valid()
      reads this
      ensures IsZero() <==> Nat() == 0
    {
      assert limbs == [] <==> Nat() == 0 by {
        if limbs != [] { NormalByValue(limbs); }
      }
      limbs == []
    }

    /** Number of significant bits. */
    function BitLength(): (n: nat)
      requires Valid()
      reads this
      ensures n == BitLen(Nat())
    {
      if limbs == [] then 0
      else
        TopLimbBits(limbs);
        (|limbs| - 1) * 64 + BitLen(limbs[|limbs| - 1])
    }

    predicate BitSet(index: nat)
      reads this
      ensures BitSet(index) <==> Bit(Nat(), index)
    {
      BitAtValue(limbs, index);
      BitAt(limbs, index)
    }

    predicate AnyBelow(exclusive: nat)
      reads this
      ensures AnyBelow(exclusive) <==> Low(Nat(), exclusive) != 0
    {
      AnyBelowValue(limbs, exclusive);
      AnyBelowIn(limbs, exclusive)
    }

    /** Quotient by 2^shift, modulo 2^64. */
    function ShiftedU64(shift: nat): (r: Word64)
      reads this
      ensures r == Low(Shr(Nat(), shift), 64)
    {
      ShiftedFoldValue(limbs, shift, 64);
      Divide(Shr(Nat(), shift), 64);
      Pow2Bytes();
      ShiftedFold(limbs, shift, 64)
    }

    function LowU64(): (r: Word64)
      reads this
      ensures r == Low(Nat(), 64)
    {
      if limbs == [] then ZeroBits(64); 0
      else
        assert Low(Nat(), 64) == limbs[0] by {
          Pow2Bytes();
          Shl64(Value(limbs[1..]));
          DivideUnique(Nat(), 64, Value(limbs[1..]), limbs[0]);
        }
        limbs[0]
    }

    function Cmp(other: BigUint): (r: Ordering)
      requires Valid() && other.Valid()
      reads this, other
      ensures r == Compare(Nat(), other.Nat())
    {
      if |limbs| < |other.limbs| then LongerIsGreater(limbs, other.limbs); Less
      else if |limbs| > |other.limbs| then LongerIsGreater(other.limbs, limbs); Greater
      else CompareFromTopValue(limbs, other.limbs); CompareFromTop(limbs, other.limbs)
    }

    method ShlBits(shift: nat)
      requires Valid()
      modifies this
      ensures Valid() && Nat() == Shl(old(Nat()), shift)
    {
      ZeroBits(shift);
      if IsZero() || shift == 0 { return; }
      var whole, partial := shift / 64, shift % 64;
      ghost var start := limbs;
      if whole != 0 {
        var oldLen := |limbs|;
        limbs := limbs + Zeros(whole);
        limbs := limbs[..whole] + limbs[..oldLen];
        limbs := Zeros(whole) + limbs[whole..];
      }
      assert limbs == Zeros(whole) + start;
      PadValue(start, whole);
      ShlAdd(Value(start), 64 * whole, partial);
      if partial != 0 { ShlPartial(partial); }
    }

    /** The carry loop of the shift, for the bits that do not fill a limb. */
    method ShlPartial(partial: nat)
      requires Valid() && 0 < partial < 64
      modifies this
      ensures Valid() && Nat() == Shl(old(Nat()), partial)
    {
      ghost var source := limbs;
      var carry: Word64 := 0;
      var i := 0;
      ZeroBits(partial);
      while i < |limbs|
        invariant 0 <= i <= |limbs| == |source|
        invariant limbs[i..] == source[i..]
        invariant carry < Pow2(partial)
        invariant Value(limbs[..i]) + Shl(carry, 64 * i) == Shl(Value(source[..i]), partial)
      {
        ShiftLimb(limbs[i], partial, carry);
        var next: Word64 := Shr(limbs[i], 64 - partial);
        ghost var before := limbs;
        limbs := limbs[i := BitOr(Low(Shl(limbs[i], partial), 64), carry)];
        ShlStep(before, source, limbs, i, partial, carry, next);
        carry := next;
        i := i + 1;
      }
      assert source[..i] == source && limbs[..i] == limbs;
      ShiftedIsNormal(source, limbs, partial, carry);
      if carry != 0 { limbs := limbs + [carry]; }
    }

    method AddAssign(other: BigUint)
      requires Valid() && other.Valid() && other != this
      modifies this
      ensures Valid() && Nat() == old(Nat()) + other.Nat()
    {
      hide Value, Shl;
      var length := if |limbs| < |other.limbs| then |other.limbs| else |limbs|;
      ghost var start := limbs;
      limbs := limbs + Zeros(length - |limbs|);
      ghost var padded := limbs;
      ghost var addend := other.limbs + Zeros(length - |other.limbs|);
      var carry: Word64 := 0;
      var i := 0;
      ValueEmpty();
      while i < length
        invariant 0 <= i <= length == |limbs|
        invariant limbs[i..] == padded[i..]
        invariant carry <= 1
        invariant Value(limbs[..i]) + Shl(carry, 64 * i) == Value(padded[..i]) + Value(addend[..i])
      {
        var right := if i < |other.limbs| then other.limbs[i] else 0;
        assert right == addend[i] && limbs[i] == limbs[i..][0] == padded[i];
        var sum1, carry1 := OverflowingAdd(limbs[i], right);
        var sum2, carry2 := OverflowingAdd(sum1, carry);
        ghost var before, carried := limbs, carry;
        limbs := limbs[i := sum2];
        carry := if carry1 || carry2 then 1 else 0;
        AddStep(before, padded, addend, limbs, i, carried, carry);
        i := i + 1;
      }
      assert padded[..i] == padded && addend[..i] == addend && limbs[..i] == limbs;
      PadValue(start, length - |start|);
      PadValue(other.limbs, length - |other.limbs|);
      SumIsNormal(start, other.limbs, limbs, carry);
      if carry != 0 { limbs := limbs + [carry]; }
    }

    method SubAssign(other: BigUint)
      requires Valid() && other.Valid() && other != this
      requires other.Nat() <= Nat()
      modifies this
      ensures Valid() && Nat() == old(Nat()) - other.Nat()
    {
      hide Shl, Value;
      ghost var start := limbs;
      if |limbs| < |other.limbs| { LongerIsGreater(limbs, other.limbs); }
      ghost var subtrahend := other.limbs + Zeros(|limbs| - |other.limbs|);
      PadValue(other.limbs, |limbs| - |other.limbs|);
      var borrow: Word64 := 0;
      assert limbs[..0] == subtrahend[..0] == start[..0] == [];
      ValueEmpty();
      var i := 0;
      while i < |limbs|
        invariant 0 <= i <= |limbs| == |start|
        invariant limbs[i..] == start[i..]
        invariant borrow <= 1
        invariant Value(limbs[..i]) + Value(subtrahend[..i]) == Value(start[..i]) + Shl(borrow, 64 * i)
      {
        var right := if i < |other.limbs| then other.limbs[i] else 0;
        assert right == subtrahend[i] && limbs[i] == limbs[i..][0] == start[i];
        var difference1, borrow1 := OverflowingSub(limbs[i], right);
        var difference2, borrow2 := OverflowingSub(difference1, borrow);
        ghost var before, borrowed := limbs, borrow;
        limbs := limbs[i := difference2];
        borrow := if borrow1 || borrow2 then 1 else 0;
        SubStep(before, start, subtrahend, limbs, i, borrowed, borrow);
        i := i + 1;
      }
      assert start[..i] == start && subtrahend[..i] == subtrahend && limbs[..i] == limbs;
      NoFinalBorrow(limbs, borrow);
      ghost var difference := Value(limbs);
      while limbs != [] && limbs[|limbs| - 1] == 0
        invariant Value(limbs) == difference
        decreases |limbs|
      {
        DropZero(limbs);
        limbs := limbs[..|limbs| - 1];
      }
    }
  }

  method OverflowingAdd(a: Word64, b: Word64) returns (sum: Word64, carry: bool)
    ensures a + b == sum + if carry then 0x1_0000_0000_0000_0000 else 0
  {
    sum, carry := (a + b) % 0x1_0000_0000_0000_0000, a + b >= 0x1_0000_0000_0000_0000;
  }

  method OverflowingSub(a: Word64, b: Word64) returns (difference: Word64, borrow: bool)
    ensures a - b == difference - if borrow then 0x1_0000_0000_0000_0000 else 0
  {
    difference, borrow := (a - b) % 0x1_0000_0000_0000_0000, a < b;
  }

  // ---- one step of each loop ----

  /** The part below i is kept, limb i is new, the rest is still the input. */
  lemma LimbStep(before: seq<Word64>, source: seq<Word64>, after: seq<Word64>, i: nat)
    requires i < |before| == |source| == |after|
    requires before[i..] == source[i..]
    requires after == before[i := after[i]]
    ensures before[i] == source[i]
    ensures after[i + 1..] == source[i + 1..]
    ensures Value(after[..i + 1]) == Value(before[..i]) + Shl(after[i], 64 * i)
    ensures Value(source[..i + 1]) == Value(source[..i]) + Shl(source[i], 64 * i)
  {
    hide Shl, Value;
    assert before[i] == before[i..][0] && source[i] == source[i..][0];
    assert before[i + 1..] == before[i..][1..] && source[i + 1..] == source[i..][1..];
    assert after[..i] == before[..i];
    StepValue(after, i);
    StepValue(source, i);
  }

  lemma StepValue(a: seq<Word64>, i: nat)
    requires i < |a|
    ensures Value(a[..i + 1]) == Value(a[..i]) + Shl(a[i], 64 * i)
  {
    assert a[..i + 1] == a[..i] + [a[i]];
    ValueSnoc(a[..i], a[i]);
  }

  lemma ShlNextLimb(x: nat, i: nat)
    ensures Shl(x, 64 * (i + 1)) == Shl(0x1_0000_0000_0000_0000 * x, 64 * i)
  {
    Shl64(x);
    ShlAdd(x, 64, 64 * i);
  }

  lemma ShlSum3(a: nat, b: nat, c: nat, n: nat)
    ensures Shl(a + b + c, n) == Shl(a, n) + Shl(b, n) + Shl(c, n)
  {
    ShlSum(a + b, c, n);
    ShlSum(a, b, n);
  }

  lemma AddStep(before: seq<Word64>, source: seq<Word64>, addend: seq<Word64>, after: seq<Word64>, i: nat, carried: Word64, carry: Word64)
    requires i < |before| == |source| == |after| == |addend|
    requires before[i..] == source[i..] && after == before[i := after[i]]
    requires source[i] + addend[i] + carried == after[i] + 0x1_0000_0000_0000_0000 * carry
    requires Value(before[..i]) + Shl(carried, 64 * i) == Value(source[..i]) + Value(addend[..i])
    ensures after[i + 1..] == source[i + 1..]
    ensures Value(after[..i + 1]) + Shl(carry, 64 * (i + 1)) == Value(source[..i + 1]) + Value(addend[..i + 1])
  {
    hide Shl, Value;
    LimbStep(before, source, after, i);
    StepValue(addend, i);
    ShlNextLimb(carry, i);
    ShlSum3(source[i], addend[i], carried, 64 * i);
    ShlSum(after[i], 0x1_0000_0000_0000_0000 * carry, 64 * i);
  }

  lemma SubStep(before: seq<Word64>, source: seq<Word64>, subtrahend: seq<Word64>, after: seq<Word64>, i: nat, borrowed: Word64, borrow: Word64)
    requires i < |before| == |source| == |after| == |subtrahend|
    requires before[i..] == source[i..] && after == before[i := after[i]]
    requires source[i] - subtrahend[i] - borrowed == after[i] - 0x1_0000_0000_0000_0000 * borrow
    requires Value(before[..i]) + Value(subtrahend[..i]) == Value(source[..i]) + Shl(borrowed, 64 * i)
    ensures after[i + 1..] == source[i + 1..]
    ensures Value(after[..i + 1]) + Value(subtrahend[..i + 1]) == Value(source[..i + 1]) + Shl(borrow, 64 * (i + 1))
  {
    hide Shl, Value;
    LimbStep(before, source, after, i);
    StepValue(subtrahend, i);
    ShlNextLimb(borrow, i);
    ShlSum3(after[i], subtrahend[i], borrowed, 64 * i);
    ShlSum(source[i], 0x1_0000_0000_0000_0000 * borrow, 64 * i);
  }

  lemma SumIsNormal(a: seq<Word64>, b: seq<Word64>, sum: seq<Word64>, carry: Word64)
    requires Normal(a) && Normal(b)
    requires |sum| == if |a| < |b| then |b| else |a|
    requires Value(sum) + Shl(carry, 64 * |sum|) == Value(a) + Value(b)
    ensures carry == 0 ==> Normal(sum) && Value(sum) == Value(a) + Value(b)
    ensures carry != 0 ==> Value(sum + [carry]) == Value(a) + Value(b)
  {
    hide Value, Shl;
    ValueSnoc(sum, carry);
    ZeroBits(64 * |sum|);
    if carry == 0 { LargeIsNormal(sum, if |a| < |b| then b else a); }
  }

  lemma NoFinalBorrow(limbs: seq<Word64>, borrow: Word64)
    requires Shl(borrow, 64 * |limbs|) <= Value(limbs)
    ensures borrow == 0 && Shl(borrow, 64 * |limbs|) == 0
  {
    ValueBound(limbs);
    ShlOne(64 * |limbs|);
    ShlMono(1, borrow, 64 * |limbs|);
  }

  lemma DropZero(limbs: seq<Word64>)
    requires limbs != [] && limbs[|limbs| - 1] == 0
    ensures Value(limbs[..|limbs| - 1]) == Value(limbs)
  {
    var k := |limbs| - 1;
    assert limbs == limbs[..k] + [0];
    ValueSnoc(limbs[..k], 0);
    ZeroBits(64 * k);
  }

  /** A limb shifted left by 0 < n < 64 splits into what stays and what is carried out. */
  lemma ShiftLimb(x: Word64, n: nat, carry: Word64)
    requires 0 < n < 64 && carry < Pow2(n)
    ensures Shl(x, n) == Low(Shl(x, n), 64) + 0x1_0000_0000_0000_0000 * Shr(x, 64 - n)
    ensures Shr(x, 64 - n) < Pow2(n) && Shr(x, 64 - n) < 0x1_0000_0000_0000_0000
    ensures BitOr(Low(Shl(x, n), 64), carry) == Low(Shl(x, n), 64) + carry < 0x1_0000_0000_0000_0000
  {
    var h, l := Shr(x, 64 - n), Low(x, 64 - n);
    Pow2Word();
    ShiftSplit(x, n, 64 - n);
    Shl64(h);
    Pow2Shl(n, 64 - n);
    ShrBounds(x, 64 - n, Pow2(n));
    Pow2Mono(n, 64);
    Pow2Shl(64 - n, n);
    ShlMono(l, Pow2(64 - n), n);
    OrDisjoint(l, carry, n);
  }

  lemma ShiftSplit(x: nat, n: nat, m: nat)
    ensures Shl(x, n) == Shl(Shr(x, m), m + n) + Shl(Low(x, m), n)
    ensures Low(Shl(x, n), m + n) == Shl(Low(x, m), n) && Shr(Shl(x, n), m + n) == Shr(x, m)
    ensures Low(x, m) < Pow2(m)
  {
    var h, l := Shr(x, m), Low(x, m);
    Divide(x, m);
    ShlSum(Shl(h, m), l, n);
    ShlAdd(h, m, n);
    Pow2Shl(m, n);
    ShlMono(l, Pow2(m), n);
    DivideUnique(Shl(x, n), m + n, h, Shl(l, n));
  }

  lemma ShlStep(before: seq<Word64>, source: seq<Word64>, after: seq<Word64>, i: nat, n: nat, carry: Word64, next: Word64)
    requires i < |before| == |source| == |after|
    requires before[i..] == source[i..]
    requires after == before[i := after[i]]
    requires after[i] + 0x1_0000_0000_0000_0000 * next == Shl(before[i], n) + carry
    requires Value(before[..i]) + Shl(carry, 64 * i) == Shl(Value(source[..i]), n)
    ensures after[i + 1..] == source[i + 1..]
    ensures Value(after[..i + 1]) + Shl(next, 64 * (i + 1)) == Shl(Value(source[..i + 1]), n)
  {
    hide Shl, Value;
    LimbStep(before, source, after, i);
    ShlNextLimb(next, i);
    ShlSum(after[i], 0x1_0000_0000_0000_0000 * next, 64 * i);
    ShlSum(Shl(source[i], n), carry, 64 * i);
    ShlSum(Value(source[..i]), Shl(source[i], 64 * i), n);
    ShlAdd(source[i], n, 64 * i);
    ShlAdd(source[i], 64 * i, n);
  }

  lemma ShiftedIsNormal(source: seq<Word64>, shifted: seq<Word64>, n: nat, carry: Word64)
    requires Normal(source) && |shifted| == |source|
    requires Value(shifted) + Shl(carry, 64 * |shifted|) == Shl(Value(source), n)
    ensures carry == 0 ==> Normal(shifted) && Value(shifted) == Shl(Value(source), n)
    ensures carry != 0 ==> Value(shifted + [carry]) == Shl(Value(source), n)
  {
    ValueSnoc(shifted, carry);
    ZeroBits(64 * |shifted|);
    ShlMono(Value(source), Value(source), n);
    if carry == 0 { LargeIsNormal(shifted, source); }
  }
}
