/** Encoders of the control-flow instructions and the part of the decoder that
    recognises them. Masks and match values follow section 2.5 and chapter 24 of
    the RISC-V Unprivileged ISA 20191213. */
module Isa {
  import opened Options
  import opened Powers
  import opened BitOps

  datatype Instruction =
    | Earlier                                   // an instruction decode recognises before the branches
    | Beq(rs1: nat, rs2: nat, offset: int)
    | Bne(brs1: nat, brs2: nat, boffset: int)
    | Jal(rd: nat, joffset: int)
    | Later                                     // whatever decode recognises after jal

  /** The 32-bit two's complement image of an offset. */
  function Image32(offset: int): nat
    requires -0x8000_0000 <= offset < 0x8000_0000
  {
    if offset < 0 then offset + 0x1_0000_0000 else offset
  }

  /** A field of the given width read as a signed number. */
  function Signed(field: nat, width: nat): int
    requires width > 0
  {
    if field >= Pow2(width - 1) then field - Pow2(width) else field
  }

  const BRANCH_MASK: nat := 0x707f
  const BEQ_MATCH: nat := 0x63
  const BNE_MATCH: nat := 0x1063
  const JAL_MASK: nat := 0x7f
  const JAL_MATCH: nat := 0x6f

  // ---- the code ----

  function EncodeBranch(notEqual: bool, rs1: nat, rs2: nat, offset: int): Option<nat>
  {
    if rs1 > 31 || rs2 > 31 || !(-4096 <= offset <= 4094) || offset % 2 != 0 then None
    else
      var imm := Image32(offset);
      var opcode := if notEqual then BNE_MATCH else BEQ_MATCH;
      Some(BitOr(BitOr(BitOr(BitOr(BitOr(BitOr(
        Low(Shl(Shr(imm, 12), 31), 32),
        Shl(BitAnd(Shr(imm, 5), 0x3f), 25)),
        Shl(rs2, 20)),
        Shl(rs1, 15)),
        opcode),
        Shl(BitAnd(Shr(imm, 1), 0xf), 8)),
        Shl(BitAnd(Shr(imm, 11), 1), 7)))
  }

  function EncodeJal(rd: nat, offset: int): Option<nat>
  {
    if rd > 31 || !(-1_048_576 <= offset <= 1_048_574) || offset % 2 != 0 then None
    else
      var imm := Image32(offset);
      Some(BitOr(BitOr(BitOr(BitOr(BitOr(
        Shl(BitAnd(Shr(imm, 20), 1), 31),
        Shl(BitAnd(Shr(imm, 1), 0x3ff), 21)),
        Shl(BitAnd(Shr(imm, 11), 1), 20)),
        Shl(BitAnd(Shr(imm, 12), 0xff), 12)),
        Shl(rd, 7)),
        JAL_MATCH))
  }

  /** The masks and match values tried before the branches, in order. */
  const EARLIER: seq<(nat, nat)> := [
    (0x707f, 0x13), (0xfe00_707f, 0x33), (0xfe00_707f, 0x4000_0033), (0x7f, 0x37), (0x7f, 0x17),
    (0x707f, 0x2003), (0x707f, 0x2023), (0x707f, 0x3003), (0x707f, 0x3023)]

  predicate Matches(word: nat, mask: nat, match_: nat)
  {
    BitAnd(word, mask) == match_
  }

  predicate MatchesEarlier(word: nat)
  {
    exists i :: 0 <= i < |EARLIER| && Matches(word, EARLIER[i].0, EARLIER[i].1)
  }

  function BranchField(word: nat): nat
  {
    BitOr(BitOr(BitOr(
      Shl(BitAnd(Shr(word, 31), 1), 12),
      Shl(BitAnd(Shr(word, 25), 0x3f), 5)),
      Shl(BitAnd(Shr(word, 8), 0xf), 1)),
      Shl(BitAnd(Shr(word, 7), 1), 11))
  }

  function JalField(word: nat): nat
  {
    BitOr(BitOr(BitOr(
      Shl(BitAnd(Shr(word, 31), 1), 20),
      Shl(BitAnd(Shr(word, 21), 0x3ff), 1)),
      Shl(BitAnd(Shr(word, 20), 1), 11)),
      Shl(BitAnd(Shr(word, 12), 0xff), 12))
  }

  function Register(word: nat, position: nat): nat
  {
    BitAnd(Shr(word, position), 31)
  }

  function Decode(word: nat): Instruction
  {
    if MatchesEarlier(word) then Earlier
    else if Matches(word, BRANCH_MASK, BEQ_MATCH) then
      Beq(Register(word, 15), Register(word, 20), Signed(BranchField(word), 13))
    else if Matches(word, BRANCH_MASK, BNE_MATCH) then
      Bne(Register(word, 15), Register(word, 20), Signed(BranchField(word), 13))
    else if Matches(word, JAL_MASK, JAL_MATCH) then
      Jal(Register(word, 7), Signed(JalField(word), 21))
    else Later
  }

  // ---- disjoint fields ----

  lemma {:induction false} OrAssociates(a: nat, b: nat, c: nat)
    ensures BitOr(BitOr(a, b), c) == BitOr(a, BitOr(b, c))
    decreases a
  {
    if a != 0 && b != 0 && c != 0 {
      OrAssociates(a / 2, b / 2, c / 2);
      OrHalves(a, b);
      OrHalves(b, c);
      OrHalves(BitOr(a, b), c);
      OrHalves(a, BitOr(b, c));
    }
  }

  lemma OrHalves(a: nat, b: nat)
    ensures BitOr(a, b) / 2 == BitOr(a / 2, b / 2)
    ensures BitOr(a, b) % 2 == if a % 2 == 1 || b % 2 == 1 then 1 else 0
  {
  }

  /** Masks act on the high and the low part separately. */
  lemma {:induction false} AndSplit(ah: nat, al: nat, bh: nat, bl: nat, n: nat)
    requires al < Pow2(n) && bl < Pow2(n)
    ensures BitAnd(Shl(ah, n) + al, Shl(bh, n) + bl) == Shl(BitAnd(ah, bh), n) + BitAnd(al, bl)
    decreases n
  {
    hide BitAnd;
    if n > 0 {
      AndSplit(ah, al / 2, bh, bl / 2, n - 1);
      AndHalves(Shl(ah, n) + al, Shl(bh, n) + bl);
      AndHalves(al, bl);
    } else {
      AndHalves(0, 0);
    }
  }

  lemma AndHalves(a: nat, b: nat)
    ensures BitAnd(a, b) == 2 * BitAnd(a / 2, b / 2) + if a % 2 == 1 && b % 2 == 1 then 1 else 0
  {
  }

  /** A field mask keeps the low bits. */
  lemma FieldMasks()
    ensures forall a: nat :: BitAnd(a, 1) == Low(a, 1)
    ensures forall a: nat :: BitAnd(a, 0xf) == Low(a, 4)
    ensures forall a: nat :: BitAnd(a, 31) == Low(a, 5)
    ensures forall a: nat :: BitAnd(a, 0x3f) == Low(a, 6)
    ensures forall a: nat :: BitAnd(a, 0x7f) == Low(a, 7)
    ensures forall a: nat :: BitAnd(a, 0xff) == Low(a, 8)
    ensures forall a: nat :: BitAnd(a, 0x3ff) == Low(a, 10)
  {
    hide BitAnd, Low;
    FieldPowers();
    forall a: nat ensures BitAnd(a, 1) == Low(a, 1) { AndMask(a, 1); }
    forall a: nat ensures BitAnd(a, 0xf) == Low(a, 4) { AndMask(a, 4); }
    forall a: nat ensures BitAnd(a, 31) == Low(a, 5) { AndMask(a, 5); }
    forall a: nat ensures BitAnd(a, 0x3f) == Low(a, 6) { AndMask(a, 6); }
    forall a: nat ensures BitAnd(a, 0x7f) == Low(a, 7) { AndMask(a, 7); }
    forall a: nat ensures BitAnd(a, 0xff) == Low(a, 8) { AndMask(a, 8); }
    forall a: nat ensures BitAnd(a, 0x3ff) == Low(a, 10) { AndMask(a, 10); }
  }

  lemma FieldPowers()
    ensures Pow2(1) == 2 && Pow2(4) == 0x10 && Pow2(5) == 0x20 && Pow2(6) == 0x40 && Pow2(7) == 0x80
    ensures Pow2(8) == 0x100 && Pow2(10) == 0x400
  {
  }

  // ---- the layout of an encoded word ----

  /** Bits 31 down: sign, six high bits, rs2, rs1, funct3, four low bits, bit eleven, opcode. */
  function BranchLayout(s: nat, h: nat, rs2: nat, rs1: nat, f3: nat, l: nat, e: nat): nat
  {
    Shl(Shl(Shl(Shl(Shl(s, 6) + h, 5) + rs2, 5) + rs1, 3) + f3, 12) + (Shl(Shl(l, 1) + e, 7) + 0x63)
  }

  /** Or of a number whose bits start at n with one below them, n bits further up each time. */
  lemma OrStep(top: nat, field: nat, width: nat, n: nat)
    requires field < Pow2(width)
    ensures BitOr(Shl(top, width + n), Shl(field, n)) == Shl(Shl(top, width) + field, n)
  {
    hide Shl, BitOr, Pow2;
    ShlAdd(top, width, n);
    ShlSum(Shl(top, width), field, n);
    Pow2Shl(width, n);
    ShlMono(field, Pow2(width), n);
    OrDisjoint(top, Shl(field, n), width + n);
  }

  lemma BranchWord(s: nat, h: nat, rs2: nat, rs1: nat, f3: nat, l: nat, e: nat)
    requires s < 2 && h < 0x40 && rs2 < 0x20 && rs1 < 0x20 && f3 < 2 && l < 0x10 && e < 2
    ensures BitOr(BitOr(BitOr(BitOr(BitOr(BitOr(Shl(s, 31), Shl(h, 25)), Shl(rs2, 20)), Shl(rs1, 15)),
                              if f3 == 1 then BNE_MATCH else BEQ_MATCH), Shl(l, 8)), Shl(e, 7))
         == BranchLayout(s, h, rs2, rs1, f3, l, e)
  {
    hide Shl, BitOr, Pow2;
    FieldPowers();
    Pow2Next(2);
    Pow2Next(1);
    Pow2Plus8(4);
    OrStep(s, h, 6, 25);
    var a := Shl(s, 6) + h;
    OrStep(a, rs2, 5, 20);
    var b := Shl(a, 5) + rs2;
    OrStep(b, rs1, 5, 15);
    var c := Shl(b, 5) + rs1;
    var opcode := if f3 == 1 then BNE_MATCH else BEQ_MATCH;
    OpcodeParts(f3);
    var d := Shl(c, 3) + f3;
    // c above bit 15, funct3 at 12, opcode at the bottom
    ShlAdd(c, 3, 12);
    ShlSum(Shl(c, 3), f3, 12);
    Pow2Shl(3, 12);
    OpcodeFits(opcode);
    OrDisjoint(c, opcode, 15);
    assert BitOr(Shl(c, 15), opcode) == Shl(d, 12) + 0x63;
    LowPartOr(d, l, e);
  }

  lemma OpcodeParts(f3: nat)
    requires f3 < 2
    ensures (if f3 == 1 then BNE_MATCH else BEQ_MATCH) == Shl(f3, 12) + 0x63
  {
    Shl8(f3);
    ShlAdd(f3, 8, 4);
    assert Shl(Shl(f3, 8), 4) == 16 * Shl(f3, 8) by { Shl4(Shl(f3, 8)); }
  }

  lemma Shl4(a: nat)
    ensures Shl(a, 4) == 16 * a
  {
    assert Shl(a, 2) == 2 * Shl(a, 1) == 4 * a;
    assert Shl(a, 4) == 2 * Shl(a, 3) == 4 * Shl(a, 2);
  }

  lemma OpcodeFits(opcode: nat)
    requires opcode <= BNE_MATCH
    ensures opcode < Pow2(15)
  {
    Pow2Plus8(7);
    FieldPowers();
  }

  /** The four low bits and bit eleven go between funct3 and the opcode. */
  lemma LowPartOr(d: nat, l: nat, e: nat)
    requires l < 0x10 && e < 2
    ensures BitOr(BitOr(Shl(d, 12) + 0x63, Shl(l, 8)), Shl(e, 7)) == Shl(d, 12) + (Shl(Shl(l, 1) + e, 7) + 0x63)
  {
    hide Shl, BitOr, Pow2;
    FieldPowers();
    Pow2Plus8(4);
    var top := Shl(d, 12);
    OrDisjoint(d, 0x63, 12);
    OrAssociates(top, 0x63, Shl(l, 8));
    OrCommutes(0x63, Shl(l, 8));
    OrAssociates(top, BitOr(0x63, Shl(l, 8)), Shl(e, 7));
    OrAssociates(Shl(l, 8), 0x63, Shl(e, 7));
    OrCommutes(0x63, Shl(e, 7));
    OrDisjoint(e, 0x63, 7);
    OrAssociates(Shl(l, 8), Shl(e, 7), 0x63);
    OrStep(l, e, 1, 7);
    var m := Shl(l, 1) + e;
    OrDisjoint(m, 0x63, 7);
    Pow2Shl(4, 1);
    ShlOneBit(l);
    Pow2Shl(5, 7);
    ShlMono(m + 1, 0x20, 7);
    ShlSum(m, 1, 7);
    ShlOne(7);
    OrDisjoint(d, Shl(m, 7) + 0x63, 12);
  }

  lemma ShlOneBit(a: nat)
    ensures Shl(a, 1) == 2 * a
  {
    assert Shl(a, 1) == 2 * Shl(a, 0);
  }

  /** Taking one more field from the top of a packed number. */
  lemma Unpack(top: nat, field: nat, n: nat)
    requires field < Pow2(n)
    ensures Shr(Shl(top, n) + field, n) == top && Low(Shl(top, n) + field, n) == field
  {
    DivideUnique(Shl(top, n) + field, n, top, field);
  }

  lemma BranchFields(s: nat, h: nat, rs2: nat, rs1: nat, f3: nat, l: nat, e: nat)
    requires s < 2 && h < 0x40 && rs2 < 0x20 && rs1 < 0x20 && f3 < 8 && l < 0x10 && e < 2
    ensures var w := BranchLayout(s, h, rs2, rs1, f3, l, e);
            && Low(w, 7) == 0x63 && Low(Shr(w, 7), 1) == e && Low(Shr(w, 8), 4) == l
            && Low(Shr(w, 12), 3) == f3 && Low(Shr(w, 15), 5) == rs1 && Low(Shr(w, 20), 5) == rs2
            && Low(Shr(w, 25), 6) == h && Low(Shr(w, 31), 1) == s && Shr(w, 31) == s
  {
    hide Shl, Shr, Low, Pow2;
    FieldPowers();
    Pow2Next(2);
    Pow2Next(1);
    var m := Shl(l, 1) + e;
    var a := Shl(s, 6) + h;
    var b := Shl(a, 5) + rs2;
    var c := Shl(b, 5) + rs1;
    var d := Shl(c, 3) + f3;
    var w := BranchLayout(s, h, rs2, rs1, f3, l, e);
    // from the bottom: opcode, e, l, then d
    ShlAdd(d, 5, 7);
    ShlSum(Shl(d, 5), m, 7);
    Unpack(Shl(d, 5) + m, 0x63, 7);
    ShlAdd(d, 4, 1);
    ShlSum(Shl(d, 4), l, 1);
    Unpack(Shl(d, 4) + l, e, 1);
    ShrAdd(w, 7, 1);
    Unpack(d, l, 4);
    ShrAdd(w, 8, 4);
    Unpack(c, f3, 3);
    ShrAdd(w, 12, 3);
    Unpack(b, rs1, 5);
    ShrAdd(w, 15, 5);
    Unpack(a, rs2, 5);
    ShrAdd(w, 20, 5);
    Unpack(s, h, 6);
    ShrAdd(w, 25, 6);
    SmallNumber(s, 1);
  }

  // ---- the immediate taken apart and put together ----

  lemma BranchImmediate(offset: int)
    requires -4096 <= offset <= 4094 && offset % 2 == 0
    ensures var imm := Image32(offset);
            var s, h, l, e := Low(Shr(imm, 12), 1), Low(Shr(imm, 5), 6), Low(Shr(imm, 1), 4), Low(Shr(imm, 11), 1);
            && s < 2 && h < 0x40 && l < 0x10 && e < 2
            && Low(Shl(Shr(imm, 12), 31), 32) == Shl(s, 31)
            && Shl(Shl(Shl(Shl(s, 1) + e, 6) + h, 4) + l, 1) == Low(imm, 13)
            && Low(imm, 13) == if offset < 0 then offset + 0x2000 else offset
  {
    hide Shl, Shr, Low, Pow2;
    var imm := Image32(offset);
    FieldPowers();
    BranchPowers();
    Divide(Shr(imm, 12), 1);
    Divide(Shr(imm, 5), 6);
    Divide(Shr(imm, 1), 4);
    Divide(Shr(imm, 11), 1);
    TopBit(Shr(imm, 12));
    // reassemble from the bottom
    ShrAdd(imm, 12, 1);
    ShrAdd(imm, 11, 1);
    ShrAdd(imm, 5, 6);
    ShrAdd(imm, 1, 4);
    var s, h, l, e := Low(Shr(imm, 12), 1), Low(Shr(imm, 5), 6), Low(Shr(imm, 1), 4), Low(Shr(imm, 11), 1);
    Collect4(s, e, h, l);
    EvenLow(imm);
    LowSigned(offset, 13);
  }

  lemma BranchPowers()
    ensures Pow2(12) == 0x1000 && Pow2(13) == 0x2000 && Pow2(19) == 0x8_0000 && Pow2(20) == 0x10_0000 && Pow2(21) == 0x20_0000
  {
    Pow2Plus8(4);
    Pow2Plus8(5);
    Pow2Plus8(11);
    Pow2Plus8(12);
    Pow2Plus8(13);
    FieldPowers();
    Pow2Single();
  }

  lemma TopBit(a: nat)
    ensures Low(Shl(a, 31), 32) == Shl(Low(a, 1), 31)
  {
    hide Shl, Shr, Low, Pow2;
    Divide(a, 1);
    ShlSum(Shl(Shr(a, 1), 1), Low(a, 1), 31);
    ShlAdd(Shr(a, 1), 1, 31);
    FieldPowers();
    Pow2Shl(1, 31);
    ShlMono(Low(a, 1), 2, 31);
    DivideUnique(Shl(a, 31), 32, Shr(a, 1), Shl(Low(a, 1), 31));
  }

  lemma EvenLow(a: nat)
    ensures a % 2 == 0 ==> Low(a, 1) == 0
  {
    assert Low(a, 1) == 2 * Low(a / 2, 0) + a % 2;
  }

  /** Fields collected one above the other. */
  lemma Collect4(s: nat, e: nat, h: nat, l: nat)
    ensures Shl(Shl(Shl(Shl(s, 1) + e, 6) + h, 4) + l, 1)
         == Shl(s, 12) + Shl(e, 11) + Shl(h, 5) + Shl(l, 1)
  {
    hide Shl;
    ShlSum(Shl(s, 1), e, 6);
    ShlAdd(s, 1, 6);
    ShlSum(Shl(s, 7) + Shl(e, 6), h, 4);
    ShlSum(Shl(s, 7), Shl(e, 6), 4);
    ShlAdd(s, 7, 4);
    ShlAdd(e, 6, 4);
    ShlSum(Shl(s, 11) + Shl(e, 10) + Shl(h, 4), l, 1);
    ShlSum(Shl(s, 11) + Shl(e, 10), Shl(h, 4), 1);
    ShlSum(Shl(s, 11), Shl(e, 10), 1);
    ShlAdd(s, 11, 1);
    ShlAdd(e, 10, 1);
    ShlAdd(h, 4, 1);
  }

  /** The low bits of the 32-bit image of a short offset. */
  lemma LowSigned(offset: int, n: nat)
    requires 0 < n <= 32 && 0 <= offset + Pow2(n - 1) && offset < Pow2(n - 1)
    requires -0x8000_0000 <= offset < 0x8000_0000
    ensures Low(Image32(offset), n) == if offset < 0 then offset + Pow2(n) else offset
  {
    hide Shl, Shr, Low, Pow2;
    Pow2Next(n - 1);
    if offset < 0 {
      Pow2Shl(n, 32 - n);
      Pow2Bytes();
      var q := Pow2(32 - n);
      ShlOne(32 - n);
      ShlAdd(1, 32 - n, n);
      ShlOne(32);
      ShlSum(q - 1, 1, n);
      ShlOne(n);
      assert Shl(q, n) == 0x1_0000_0000;
      DivideUnique(Image32(offset), n, q - 1, offset + Pow2(n));
    } else {
      SmallNumber(offset, n);
    }
  }

  // ---- recognising the word ----

  /** A mask that keeps the whole opcode tells words with different opcodes apart. */
  lemma OpcodeDiffers(word: nat, mask: nat, match_: nat)
    requires Low(mask, 7) == 0x7f && Low(word, 7) != Low(match_, 7)
    ensures !Matches(word, mask, match_)
  {
    hide Shl, Shr, Low, BitAnd, Pow2;
    FieldPowers();
    Divide(word, 7);
    Divide(mask, 7);
    FieldMasks();
    AndSplit(Shr(word, 7), Low(word, 7), Shr(mask, 7), Low(mask, 7), 7);
    SmallNumber(Low(word, 7), 7);
    DivideUnique(BitAnd(word, mask), 7, BitAnd(Shr(word, 7), Shr(mask, 7)), Low(word, 7));
  }

  lemma NotEarlier(word: nat)
    requires Low(word, 7) == 0x63 || Low(word, 7) == 0x6f
    ensures !MatchesEarlier(word)
  {
    hide Matches;
    EarlierOpcodes();
    forall i | 0 <= i < |EARLIER| ensures !Matches(word, EARLIER[i].0, EARLIER[i].1) {
      OpcodeDiffers(word, EARLIER[i].0, EARLIER[i].1);
    }
  }

  lemma EarlierOpcodes()
    ensures forall i :: 0 <= i < |EARLIER| ==>
      Low(EARLIER[i].0, 7) == 0x7f && Low(EARLIER[i].1, 7) != 0x63 && Low(EARLIER[i].1, 7) != 0x6f
  {
    hide Low;
    forall i | 0 <= i < |EARLIER|
      ensures Low(EARLIER[i].0, 7) == 0x7f && Low(EARLIER[i].1, 7) != 0x63 && Low(EARLIER[i].1, 7) != 0x6f
    {
      var (mask, match_) := EARLIER[i];
      Low7(mask);
      Low7(match_);
      assert mask == 0x707f || mask == 0xfe00_707f || mask == 0x7f;
      assert match_ == 0x13 || match_ == 0x33 || match_ == 0x4000_0033 || match_ == 0x37 || match_ == 0x17
        || match_ == 0x2003 || match_ == 0x2023 || match_ == 0x3003 || match_ == 0x3023;
    }
  }

  lemma Low7(a: nat)
    ensures Low(a, 7) == a % 0x80
  {
    hide Shl, Shr, Low, Pow2;
    FieldPowers();
    Divide(a, 7);
    Shl7(Shr(a, 7));
  }

  lemma Shl7(a: nat)
    ensures Shl(a, 7) == 0x80 * a
  {
    Shl8(a);
    assert Shl(a, 8) == 2 * Shl(a, 7);
  }

  lemma BranchMaskReads(word: nat, f3: nat)
    requires Low(word, 7) == 0x63 && f3 < 8
    ensures Matches(word, BRANCH_MASK, Shl(f3, 12) + 0x63) <==> Low(Shr(word, 12), 3) == f3
  {
    hide Shl, Shr, Low, BitAnd, Pow2;
    FieldPowers();
    BranchPowers();
    Divide(word, 12);
    OpcodeMask(Low(word, 12), word);
    ShlIsProduct(7, 12);
    AndSplit(Shr(word, 12), Low(word, 12), 7, 0x7f, 12);
    Pow2Next(2);
    Pow2Next(1);
    AndMask(Shr(word, 12), 3);
    var g := Low(Shr(word, 12), 3);
    ShlMono(g, f3, 12);
    ShlMono(f3, g, 12);
  }

  lemma OpcodeMask(low: nat, word: nat)
    requires low == Low(word, 12) && Low(word, 7) == 0x63
    ensures BitAnd(low, 0x7f) == 0x63
  {
    hide Shl, Shr, Low, BitAnd, Pow2;
    FieldPowers();
    FieldMasks();
    ShrAdd(word, 7, 5);
    Unpack(Low(Shr(word, 7), 5), 0x63, 7);
  }

  // ---- round trips ----

  lemma WordFits(word: nat)
    requires Shr(word, 31) < 2
    ensures word < 0x1_0000_0000
  {
    hide Shl, Shr, Pow2;
    ShrBounds(word, 31, 2);
    ShlSum(1, 1, 31);
    ShlOne(31);
    Pow2Single();
  }

  lemma BranchRoundTrip(notEqual: bool, rs1: nat, rs2: nat, offset: int)
    requires EncodeBranch(notEqual, rs1, rs2, offset).Some?
    ensures var word := EncodeBranch(notEqual, rs1, rs2, offset).value;
            && word < 0x1_0000_0000
            && Decode(word) == if notEqual then Bne(rs1, rs2, offset) else Beq(rs1, rs2, offset)
  {
    hide Shl, Shr, Low, BitAnd, BitOr, Pow2, MatchesEarlier, Matches, BranchLayout, JalField;
    var imm := Image32(offset);
    var word := EncodeBranch(notEqual, rs1, rs2, offset).value;
    FieldMasks();
    BranchImmediate(offset);
    var s, h, l, e := Low(Shr(imm, 12), 1), Low(Shr(imm, 5), 6), Low(Shr(imm, 1), 4), Low(Shr(imm, 11), 1);
    var f3 := if notEqual then 1 else 0;
    BranchWord(s, h, rs2, rs1, f3, l, e);
    BranchFields(s, h, rs2, rs1, f3, l, e);
    WordFits(word);
    NotEarlier(word);
    BranchMaskReads(word, 0);
    BranchMaskReads(word, 1);
    OpcodeParts(0);
    OpcodeParts(1);
    BranchFieldBack(s, e, h, l);
    BranchPowers();
  }

  /** The decoder's order of or-ing the pieces gives the collected immediate. */
  lemma BranchFieldBack(s: nat, e: nat, h: nat, l: nat)
    requires s < 2 && h < 0x40 && l < 0x10 && e < 2
    ensures BitOr(BitOr(BitOr(Shl(s, 12), Shl(h, 5)), Shl(l, 1)), Shl(e, 11)) == Shl(Shl(Shl(Shl(s, 1) + e, 6) + h, 4) + l, 1)
  {
    hide Shl, BitOr, Pow2;
    FieldPowers();
    OrAssociates(BitOr(Shl(s, 12), Shl(h, 5)), Shl(l, 1), Shl(e, 11));
    OrCommutes(Shl(l, 1), Shl(e, 11));
    OrAssociates(BitOr(Shl(s, 12), Shl(h, 5)), Shl(e, 11), Shl(l, 1));
    OrAssociates(Shl(s, 12), Shl(h, 5), Shl(e, 11));
    OrCommutes(Shl(h, 5), Shl(e, 11));
    OrAssociates(Shl(s, 12), Shl(e, 11), Shl(h, 5));
    OrStep(s, e, 1, 11);
    OrStep(Shl(s, 1) + e, h, 6, 5);
    OrStep(Shl(Shl(s, 1) + e, 6) + h, l, 4, 1);
  }

  /** Sign, ten low bits, bit eleven, eight high bits, register, opcode. */
  function JalLayout(s: nat, l: nat, e: nat, h: nat, rd: nat): nat
  {
    Shl(Shl(Shl(Shl(Shl(s, 10) + l, 1) + e, 8) + h, 5) + rd, 7) + 0x6f
  }

  lemma JalWord(s: nat, l: nat, e: nat, h: nat, rd: nat)
    requires s < 2 && l < 0x400 && e < 2 && h < 0x100 && rd < 0x20
    ensures BitOr(BitOr(BitOr(BitOr(BitOr(Shl(s, 31), Shl(l, 21)), Shl(e, 20)), Shl(h, 12)), Shl(rd, 7)), JAL_MATCH)
         == JalLayout(s, l, e, h, rd)
  {
    hide Shl, BitOr, Pow2;
    FieldPowers();
    OrStep(s, l, 10, 21);
    var a := Shl(s, 10) + l;
    OrStep(a, e, 1, 20);
    var b := Shl(a, 1) + e;
    OrStep(b, h, 8, 12);
    var c := Shl(b, 8) + h;
    OrStep(c, rd, 5, 7);
    OrDisjoint(Shl(c, 5) + rd, 0x6f, 7);
  }

  lemma JalFields(s: nat, l: nat, e: nat, h: nat, rd: nat)
    requires s < 2 && l < 0x400 && e < 2 && h < 0x100 && rd < 0x20
    ensures var w := JalLayout(s, l, e, h, rd);
            && Low(w, 7) == 0x6f && Low(Shr(w, 7), 5) == rd && Low(Shr(w, 12), 8) == h
            && Low(Shr(w, 20), 1) == e && Low(Shr(w, 21), 10) == l && Low(Shr(w, 31), 1) == s && Shr(w, 31) == s
  {
    hide Shl, Shr, Low, Pow2;
    FieldPowers();
    var a := Shl(s, 10) + l;
    var b := Shl(a, 1) + e;
    var c := Shl(b, 8) + h;
    var w := JalLayout(s, l, e, h, rd);
    Unpack(Shl(c, 5) + rd, 0x6f, 7);
    Unpack(c, rd, 5);
    ShrAdd(w, 7, 5);
    Unpack(b, h, 8);
    ShrAdd(w, 12, 8);
    Unpack(a, e, 1);
    ShrAdd(w, 20, 1);
    Unpack(s, l, 10);
    ShrAdd(w, 21, 10);
    SmallNumber(s, 1);
  }

  lemma JalImmediate(offset: int)
    requires -1_048_576 <= offset <= 1_048_574 && offset % 2 == 0
    ensures var imm := Image32(offset);
            var s, l, e, h := Low(Shr(imm, 20), 1), Low(Shr(imm, 1), 10), Low(Shr(imm, 11), 1), Low(Shr(imm, 12), 8);
            && s < 2 && l < 0x400 && e < 2 && h < 0x100
            && Shl(s, 20) + Shl(h, 12) + Shl(e, 11) + Shl(l, 1) == Low(imm, 21)
            && Low(imm, 21) == if offset < 0 then offset + 0x20_0000 else offset
  {
    hide Shl, Shr, Low, Pow2;
    var imm := Image32(offset);
    FieldPowers();
    BranchPowers();
    Divide(Shr(imm, 20), 1);
    Divide(Shr(imm, 1), 10);
    Divide(Shr(imm, 11), 1);
    Divide(Shr(imm, 12), 8);
    ShrAdd(imm, 20, 1);
    ShrAdd(imm, 12, 8);
    ShrAdd(imm, 11, 1);
    ShrAdd(imm, 1, 10);
    EvenLow(imm);
    LowSigned(offset, 21);
  }

  lemma JalFieldBack(s: nat, l: nat, e: nat, h: nat)
    requires s < 2 && l < 0x400 && e < 2 && h < 0x100
    ensures BitOr(BitOr(BitOr(Shl(s, 20), Shl(l, 1)), Shl(e, 11)), Shl(h, 12)) == Shl(s, 20) + Shl(h, 12) + Shl(e, 11) + Shl(l, 1)
  {
    hide Shl, BitOr, Pow2;
    FieldPowers();
    // move the low ten bits to the end, then bit eleven behind the eight high bits
    OrAssociates(Shl(s, 20), Shl(l, 1), Shl(e, 11));
    OrCommutes(Shl(l, 1), Shl(e, 11));
    OrAssociates(Shl(s, 20), BitOr(Shl(e, 11), Shl(l, 1)), Shl(h, 12));
    OrCommutes(BitOr(Shl(e, 11), Shl(l, 1)), Shl(h, 12));
    OrAssociates(Shl(s, 20), Shl(h, 12), BitOr(Shl(e, 11), Shl(l, 1)));
    OrAssociates(BitOr(Shl(s, 20), Shl(h, 12)), Shl(e, 11), Shl(l, 1));
    OrStep(s, h, 8, 12);
    OrStep(Shl(s, 8) + h, e, 1, 11);
    OrStep(Shl(Shl(s, 8) + h, 1) + e, l, 10, 1);
    ShlSum(Shl(Shl(Shl(s, 8) + h, 1) + e, 10), l, 1);
    ShlAdd(Shl(Shl(s, 8) + h, 1) + e, 10, 1);
    ShlSum(Shl(Shl(s, 8) + h, 1), e, 11);
    ShlAdd(Shl(s, 8) + h, 1, 11);
    ShlSum(Shl(s, 8), h, 12);
    ShlAdd(s, 8, 12);
  }

  lemma JalRoundTrip(rd: nat, offset: int)
    requires EncodeJal(rd, offset).Some?
    ensures EncodeJal(rd, offset).value < 0x1_0000_0000
    ensures Decode(EncodeJal(rd, offset).value) == Jal(rd, offset)
  {
    hide Shl, Shr, Low, BitAnd, BitOr, Pow2, MatchesEarlier, Matches, JalLayout, BranchField;
    var imm := Image32(offset);
    var word := EncodeJal(rd, offset).value;
    FieldMasks();
    JalImmediate(offset);
    var s, l, e, h := Low(Shr(imm, 20), 1), Low(Shr(imm, 1), 10), Low(Shr(imm, 11), 1), Low(Shr(imm, 12), 8);
    JalWord(s, l, e, h, rd);
    JalFields(s, l, e, h, rd);
    WordFits(word);
    NotEarlier(word);
    Low7(BEQ_MATCH);
    Low7(BNE_MATCH);
    Low7(BRANCH_MASK);
    OpcodeDiffers(word, BRANCH_MASK, BEQ_MATCH);
    OpcodeDiffers(word, BRANCH_MASK, BNE_MATCH);
    JalMaskReads(word);
    JalFieldBack(s, l, e, h);
    BranchPowers();
  }

  lemma JalMaskReads(word: nat)
    requires Low(word, 7) == 0x6f
    ensures Matches(word, JAL_MASK, JAL_MATCH)
  {
    FieldMasks();
  }
}
