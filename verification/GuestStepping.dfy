/** The address at which the guest monitor stops a single step is where the instruction goes. */
module GuestStepping {
  import opened Bytes
  import opened Options
  import opened Powers
  import opened BitOps
  import opened GuestState
  import Isa

  lemma ShrIsQuotient(a: nat, n: nat, power: nat)
    requires power == Pow2(n) && power > 0
    ensures Shr(a, n) == a / power && Low(a, n) == a % power
  {
    hide Shl, Shr, Low, Pow2;
    ShlIsProduct(a / power, n);
    DivideBack(a, power);
    DivideUnique(a, n, a / power, a % power);
  }

  lemma DivideBack(a: nat, power: nat)
    requires power > 0
    ensures a == a / power * power + a % power && a % power < power
  {
  }

  /** The fields the stepper cuts out by division are those the decoder cuts out by shifts and masks. */
  lemma FieldsAgree(word: Word32)
    ensures Isa.Register(word, 15) == word / 0x8000 % 32 && Isa.Register(word, 20) == word / 0x10_0000 % 32
    ensures Low(Shr(word, 12), 3) == word / 0x1000 % 8 && Low(word, 7) == word % 0x80
  {
    hide Shr, Low, BitAnd, Pow2;
    StepPowers();
    Isa.FieldMasks();
    ShrIsQuotient(word, 15, 0x8000);
    ShrIsQuotient(word, 20, 0x10_0000);
    ShrIsQuotient(word, 12, 0x1000);
    ShrIsQuotient(word, 7, 0x80);
    ShrIsQuotient(word / 0x8000, 5, 32);
    ShrIsQuotient(word / 0x10_0000, 5, 32);
    ShrIsQuotient(word / 0x1000, 3, 8);
  }

  lemma StepPowers()
    ensures Pow2(3) == 8 && Pow2(5) == 32 && Pow2(7) == 0x80 && Pow2(12) == 0x1000 && Pow2(13) == 0x2000
    ensures Pow2(15) == 0x8000 && Pow2(20) == 0x10_0000 && Pow2(21) == 0x20_0000
  {
    SmallPowers();
    Isa.FieldPowers();
    assert Pow2(15) == 0x8000 by { Pow2Plus8(7); }
    assert Pow2(20) == 0x10_0000 by { Pow2Plus8(12); }
  }

  lemma BranchImmediatesAgree(word: Word32)
    ensures BranchImmediate(word) == Isa.BranchField(word)
  {
    hide Shr, Low, BitAnd, BitOr, Pow2, Shl;
    StepPowers();
    Isa.FieldMasks();
    FieldBounds(word);
    SmallPowers();
    var s, h := Low(Shr(word, 31), 1), Low(Shr(word, 25), 6);
    var l, e := Low(Shr(word, 8), 4), Low(Shr(word, 7), 1);
    Isa.BranchFieldBack(s, e, h, l);
    BranchSum(s, e, h, l);
  }

  lemma BranchSum(s: nat, e: nat, h: nat, l: nat)
    ensures Shl(Shl(Shl(Shl(s, 1) + e, 6) + h, 4) + l, 1) == s * 0x1000 + h * 0x20 + l * 2 + e * 0x800
  {
    hide Shl, Pow2;
    SmallPowers();
    ShlIsProduct(s, 1);
    ShlIsProduct(Shl(s, 1) + e, 6);
    ShlIsProduct(Shl(Shl(s, 1) + e, 6) + h, 4);
    ShlIsProduct(Shl(Shl(Shl(s, 1) + e, 6) + h, 4) + l, 1);
  }

  lemma JalImmediatesAgree(word: Word32)
    ensures JalImmediate(word) == Isa.JalField(word)
  {
    hide Shr, Low, BitAnd, BitOr, Pow2, Shl;
    StepPowers();
    Isa.FieldMasks();
    FieldBounds(word);
    SmallPowers();
    var s, l := Low(Shr(word, 31), 1), Low(Shr(word, 21), 10);
    var e, h := Low(Shr(word, 20), 1), Low(Shr(word, 12), 8);
    Isa.JalFieldBack(s, l, e, h);
    JalSum(s, l, e, h);
  }

  lemma JalSum(s: nat, l: nat, e: nat, h: nat)
    ensures Shl(s, 20) + Shl(h, 12) + Shl(e, 11) + Shl(l, 1) == s * 0x10_0000 + l * 2 + e * 0x800 + h * 0x1000
  {
    hide Shl, Pow2;
    StepPowers();
    Pow2Single();
    SmallPowers();
    ShlIsProduct(s, 20);
    ShlIsProduct(h, 12);
    ShlIsProduct(e, 11);
    ShlIsProduct(l, 1);
  }

  /** An address plus a signed offset, in 64 bits. */
  function Offset(pc: Word64, offset: int): Word64
  {
    (pc + offset) % 0x1_0000_0000_0000_0000
  }

  lemma SignedOffset(pc: Word64, field: nat, width: nat)
    requires field < Pow2(width) && 0 < width <= 32
    ensures WrapAdd(pc, SignExtend(field, width)) == Offset(pc, Isa.Signed(field, width))
  {
    hide Pow2;
    var extended: int, signed: int := SignExtend(field, width), Isa.Signed(field, width);
    assert extended == signed || extended == signed + 0x1_0000_0000_0000_0000;
    SameWord(pc + signed, pc + extended);
  }

  lemma SameWord(a: int, b: int)
    requires b == a || b == a + 0x1_0000_0000_0000_0000
    ensures b % 0x1_0000_0000_0000_0000 == a % 0x1_0000_0000_0000_0000
  {
  }

  /** The branch mask reads the opcode and funct3, the jump mask the opcode. */
  lemma MatchFields(word: Word32)
    ensures Isa.Matches(word, Isa.BRANCH_MASK, Isa.BEQ_MATCH) ==> word % 0x80 == 0x63 && word / 0x1000 % 8 == 0
    ensures Isa.Matches(word, Isa.BRANCH_MASK, Isa.BNE_MATCH) ==> word % 0x80 == 0x63 && word / 0x1000 % 8 == 1
    ensures Isa.Matches(word, Isa.JAL_MASK, Isa.JAL_MATCH) ==> word % 0x80 == 0x6f
  {
    hide Shr, Low, BitAnd, Pow2, Shl;
    StepPowers();
    FieldsAgree(word);
    var high, low := Shr(word, 12), Low(word, 12);
    Divide(word, 12);
    ShlIsProduct(high, 12);
    ShlIsProduct(7, 12);
    Isa.AndSplit(high, low, 7, 0x7f, 12);
    Isa.FieldMasks();
    AndMask(high, 3);
    LowOfLow(word);
    AndMask(word, 7);
    AndMask(low, 7);
    ShlIsProduct(Low(high, 3), 12);
    Divide(high, 3);
    Divide(low, 7);
  }

  lemma LowOfLow(word: Word32)
    ensures Low(Low(word, 12), 7) == Low(word, 7)
  {
    hide Shr, Low, Pow2;
    StepPowers();
    ShrIsQuotient(word, 12, 0x1000);
    ShrIsQuotient(word % 0x1000, 7, 0x80);
    ShrIsQuotient(word, 7, 0x80);
  }

  // ---- the formats of section 2.5, by the places of their bits ----

  /** The offset of a branch: imm[12|10:5] in bits 31 to 25, imm[4:1|11] in bits 11 to 7. */
  function BranchOffset(word: Word32): int
  {
    var field := word / 0x8000_0000 * 0x1000 + word / 0x80 % 2 * 0x800 + word / 0x200_0000 % 64 * 0x20 + word / 0x100 % 16 * 2;
    if field >= 0x1000 then field - 0x2000 else field
  }

  /** The offset of a jump: imm[20|10:1|11|19:12] in bits 31 to 12. */
  function JumpOffset(word: Word32): int
  {
    var field := word / 0x8000_0000 * 0x10_0000 + word / 0x1000 % 256 * 0x1000 + word / 0x10_0000 % 2 * 0x800
               + word / 0x20_0000 % 1024 * 2;
    if field >= 0x10_0000 then field - 0x20_0000 else field
  }

  /** The 12-bit immediate in bits 31 to 20. */
  function ShortImmediate(word: Word32): int
  {
    if word / 0x10_0000 >= 0x800 then word / 0x10_0000 - 0x1000 else word / 0x10_0000
  }

  lemma BranchPlaces(word: Word32)
    ensures Isa.Signed(Isa.BranchField(word), 13) == BranchOffset(word)
  {
    hide Shr, Low, BitAnd, BitOr, Pow2, Shl;
    StepPowers();
    Isa.FieldPowers();
    SmallPowers();
    Pow2Bytes();
    Pow2Single();
    Pow2Next(24);
    BranchImmediatesAgree(word);
    FieldPlace(word, 31, 0x8000_0000, 1, 2);
    FieldPlace(word, 25, 0x200_0000, 6, 64);
    FieldPlace(word, 8, 0x100, 4, 16);
    FieldPlace(word, 7, 0x80, 1, 2);
  }

  lemma JumpPlaces(word: Word32)
    ensures Isa.Signed(Isa.JalField(word), 21) == JumpOffset(word)
  {
    hide Shr, Low, BitAnd, BitOr, Pow2, Shl;
    StepPowers();
    Isa.FieldPowers();
    SmallPowers();
    Pow2Single();
    JalImmediatesAgree(word);
    FieldPlace(word, 31, 0x8000_0000, 1, 2);
    Pow2Next(20);
    FieldPlace(word, 21, 0x20_0000, 10, 1024);
    FieldPlace(word, 20, 0x10_0000, 1, 2);
    FieldPlace(word, 12, 0x1000, 8, 256);
  }

  lemma FieldPlace(word: Word32, place: nat, unit: nat, width: nat, size: nat)
    requires unit == Pow2(place) && size == Pow2(width) && unit > 0 && size > 0
    ensures Low(Shr(word, place), width) == word / unit % size
    ensures place == 31 && unit == 0x8000_0000 ==> word / unit < 2
  {
    hide Shr, Low, Pow2;
    ShrIsQuotient(word, place, unit);
    ShrIsQuotient(word / unit, width, size);
  }

  /** What every word decodes to: BEQ, BNE and JAL exactly by opcode and funct3, with the registers and offsets at
      their places. */
  lemma DecodeMeans(word: Word32)
    ensures Isa.Decode(word).Beq? <==> word % 128 == 0x63 && word / 0x1000 % 8 == 0
    ensures Isa.Decode(word).Bne? <==> word % 128 == 0x63 && word / 0x1000 % 8 == 1
    ensures Isa.Decode(word).Jal? <==> word % 128 == 0x6f
    ensures match Isa.Decode(word)
            case Beq(rs1, rs2, offset) => rs1 == word / 0x8000 % 32 && rs2 == word / 0x10_0000 % 32 && offset == BranchOffset(word)
            case Bne(rs1, rs2, offset) => rs1 == word / 0x8000 % 32 && rs2 == word / 0x10_0000 % 32 && offset == BranchOffset(word)
            case Jal(rd, offset) => rd == word / 0x80 % 32 && offset == JumpOffset(word)
            case _ => true
  {
    hide Shr, Low, BitAnd, Pow2, Shl, Isa.BranchField, Isa.JalField, Isa.Register, Isa.Matches, Isa.MatchesEarlier, Isa.Signed,
         BranchOffset, JumpOffset;
    MatchFields(word);
    FieldsAgree(word);
    BranchPlaces(word);
    JumpPlaces(word);
    JumpRegister(word);
    if word % 128 == 0x63 {
      Isa.NotEarlier(word);
      Isa.BranchMaskReads(word, 0);
      Isa.BranchMaskReads(word, 1);
      BranchMatches();
    }
    if word % 128 == 0x6f {
      Isa.NotEarlier(word);
      JumpMatches(word);
    }
  }

  lemma BranchMatches()
    ensures Shl(0, 12) + 0x63 == Isa.BEQ_MATCH && Shl(1, 12) + 0x63 == Isa.BNE_MATCH
  {
    hide Shl, Pow2;
    SmallPowers();
    ShlIsProduct(0, 12);
    ShlIsProduct(1, 12);
  }

  lemma JumpMatches(word: Word32)
    requires word % 128 == 0x6f
    ensures Isa.Matches(word, Isa.JAL_MASK, Isa.JAL_MATCH)
  {
    hide Shr, Low, BitAnd, Pow2, Shl;
    StepPowers();
    Isa.FieldMasks();
    AndMask(word, 7);
    ShrIsQuotient(word, 7, 0x80);
  }

  lemma JumpRegister(word: Word32)
    ensures Isa.Register(word, 7) == word / 0x80 % 32
  {
    hide Shr, Low, BitAnd, Pow2;
    StepPowers();
    Isa.FieldMasks();
    ShrIsQuotient(word, 7, 0x80);
    ShrIsQuotient(word / 0x80, 5, 32);
  }

  // ---- where control goes ----

  /** Where the architecture goes after any word at pc, among the instructions the stepper can follow: not a branch of
      another condition, not a JALR of another funct3, and nothing that would run off the address space. */
  function Successor(context: Context, pc: Word64, word: Word32): Option<Word64>
    requires |context.x| == 32
  {
    var opcode, funct3 := word % 128, word / 0x1000 % 8;
    var left, right := context.x[word / 0x8000 % 32], context.x[word / 0x10_0000 % 32];
    if opcode == 0x63 && funct3 == 0 then Some(Offset(pc, if left == right then BranchOffset(word) else 4))
    else if opcode == 0x63 && funct3 == 1 then Some(Offset(pc, if left == right then 4 else BranchOffset(word)))
    else if opcode == 0x6f then Some(Offset(pc, JumpOffset(word)))
    else if opcode == 0x67 && funct3 == 0 then Some(Offset(left, ShortImmediate(word)) / 2 * 2)
    else if opcode == 0x63 || opcode == 0x67 then None
    else if pc + 4 < 0x1_0000_0000_0000_0000 then Some(pc + 4)
    else None
  }

  /** A single step stops exactly where the architecture goes, whatever the word. */
  lemma StopIsSuccessor(context: Context, pc: Word64, word: Word32)
    requires |context.x| == 32
    ensures NextExecutionPc(context, pc, word) == Successor(context, pc, word)
  {
    hide Shr, Low, BitAnd, Pow2, Shl, BranchImmediate, JalImmediate, SignExtend, Isa.BranchField, Isa.JalField, Isa.Signed,
         BranchOffset, JumpOffset, ShortImmediate, WrapAdd, Offset;
    StepPowers();
    BranchPlaces(word);
    JumpPlaces(word);
    JalImmediatesAgree(word);
    BranchImmediatesAgree(word);
    SignedOffset(pc, JalImmediate(word), 21);
    SignedOffset(pc, BranchImmediate(word), 13);
    ShortField(word);
    SignedOffset(context.x[word / 0x8000 % 32], word / 0x10_0000, 12);
    SmallStep(pc);
    forall target: Word64 ensures target - target % 2 == target / 2 * 2 { Halved(target); }
  }

  lemma Halved(target: Word64)
    ensures target - target % 2 == target / 2 * 2
  {
  }

  lemma ShortField(word: Word32)
    ensures word / 0x10_0000 < Pow2(12) && Isa.Signed(word / 0x10_0000, 12) == ShortImmediate(word)
  {
    hide Pow2;
    SmallPowers();
    Pow2Single();
  }

  lemma SmallStep(pc: Word64)
    ensures WrapAdd(pc, 4) == Offset(pc, 4)
  {
  }

  /** Where the architecture takes a decoded branch or jump. */
  function AfterDecoded(instruction: Isa.Instruction, context: Context, pc: Word64): Option<Word64>
    requires |context.x| == 32
  {
    match instruction
    case Beq(rs1, rs2, offset) =>
      if rs1 >= 32 || rs2 >= 32 then None else Some(Offset(pc, if context.x[rs1] == context.x[rs2] then offset else 4))
    case Bne(rs1, rs2, offset) =>
      if rs1 >= 32 || rs2 >= 32 then None else Some(Offset(pc, if context.x[rs1] != context.x[rs2] then offset else 4))
    case Jal(_, offset) => Some(Offset(pc, offset))
    case _ => None
  }

  /** A single step over a word that decodes to a conditional branch or a jump stops exactly where that
      instruction goes. */
  lemma StepStopsAtSuccessor(context: Context, pc: Word64, word: Word32)
    requires |context.x| == 32 && (Isa.Decode(word).Beq? || Isa.Decode(word).Bne? || Isa.Decode(word).Jal?)
    ensures NextExecutionPc(context, pc, word) == AfterDecoded(Isa.Decode(word), context, pc)
    ensures NextExecutionPc(context, pc, word).Some?
  {
    hide NextExecutionPc, Isa.Decode, BranchOffset, JumpOffset, Offset;
    DecodeMeans(word);
    StopIsSuccessor(context, pc, word);
  }

  /** Assembled with an offset, single-stepped to it: a jump stops at its offset, a branch there or after itself. */
  lemma EncodedStepStops(context: Context, pc: Word64, rs1: nat, rs2: nat, notEqual: bool, offset: int)
    requires |context.x| == 32 && Isa.EncodeBranch(notEqual, rs1, rs2, offset).Some?
    ensures rs1 < 32 && rs2 < 32 && Isa.EncodeBranch(notEqual, rs1, rs2, offset).value < 0x1_0000_0000
    ensures NextExecutionPc(context, pc, Isa.EncodeBranch(notEqual, rs1, rs2, offset).value)
         == Some(Offset(pc, if (context.x[rs1] == context.x[rs2]) != notEqual then offset else 4))
  {
    hide NextExecutionPc, Isa.Decode, BitOr, BitAnd, Shl, Shr, Low;
    Isa.BranchRoundTrip(notEqual, rs1, rs2, offset);
    StepStopsAtSuccessor(context, pc, Isa.EncodeBranch(notEqual, rs1, rs2, offset).value);
  }

  /** The assembler accepts exactly the registers and the offsets that some branch word can carry. */
  lemma BranchEncodesIff(notEqual: bool, rs1: nat, rs2: nat, offset: int)
    ensures Isa.EncodeBranch(notEqual, rs1, rs2, offset).Some?
       <==> rs1 < 32 && rs2 < 32 && exists word: Word32 :: BranchOffset(word) == offset
  {
    hide Isa.Decode, BitOr, BitAnd, Shl, Shr, Low;
    if Isa.EncodeBranch(notEqual, rs1, rs2, offset).Some? {
      Isa.BranchRoundTrip(notEqual, rs1, rs2, offset);
      var word: Word32 := Isa.EncodeBranch(notEqual, rs1, rs2, offset).value;
      DecodeMeans(word);
      assert BranchOffset(word) == offset;
    }
    forall word: Word32 | BranchOffset(word) == offset ensures -4096 <= offset < 4096 && offset % 2 == 0 { OffsetRanges(word); }
  }

  /** The assembler accepts exactly the registers and the offsets that some jump word can carry. */
  lemma JumpEncodesIff(rd: nat, offset: int)
    ensures Isa.EncodeJal(rd, offset).Some? <==> rd < 32 && exists word: Word32 :: JumpOffset(word) == offset
  {
    hide Isa.Decode, BitOr, BitAnd, Shl, Shr, Low;
    if Isa.EncodeJal(rd, offset).Some? {
      Isa.JalRoundTrip(rd, offset);
      var word: Word32 := Isa.EncodeJal(rd, offset).value;
      DecodeMeans(word);
      assert JumpOffset(word) == offset;
    }
    forall word: Word32 | JumpOffset(word) == offset ensures -0x10_0000 <= offset < 0x10_0000 && offset % 2 == 0 { OffsetRanges(word); }
  }

  lemma OffsetRanges(word: Word32)
    ensures -0x1000 <= BranchOffset(word) < 0x1000 && BranchOffset(word) % 2 == 0
    ensures -0x10_0000 <= JumpOffset(word) < 0x10_0000 && JumpOffset(word) % 2 == 0
  {
    hide BranchOffset, JumpOffset;
    BranchRange(word, word / 0x8000_0000, word / 0x80 % 2, word / 0x200_0000 % 64, word / 0x100 % 16);
    JumpRange(word, word / 0x8000_0000, word / 0x1000 % 256, word / 0x10_0000 % 2, word / 0x20_0000 % 1024);
  }

  lemma BranchRange(word: Word32, sign: nat, eleven: nat, high: nat, low: nat)
    requires sign == word / 0x8000_0000 && eleven == word / 0x80 % 2 && high == word / 0x200_0000 % 64 && low == word / 0x100 % 16
    ensures -0x1000 <= BranchOffset(word) < 0x1000 && BranchOffset(word) % 2 == 0
  {
    var half := sign * 0x800 + eleven * 0x400 + high * 0x10 + low;
    assert sign < 2 && eleven < 2 && high < 64 && low < 16;
    assert BranchOffset(word) == 2 * half || BranchOffset(word) == 2 * (half - 0x1000);
  }

  lemma JumpRange(word: Word32, sign: nat, high: nat, eleven: nat, low: nat)
    requires sign == word / 0x8000_0000 && high == word / 0x1000 % 256 && eleven == word / 0x10_0000 % 2 && low == word / 0x20_0000 % 1024
    ensures -0x10_0000 <= JumpOffset(word) < 0x10_0000 && JumpOffset(word) % 2 == 0
  {
    var half := sign * 0x8_0000 + high * 0x800 + eleven * 0x400 + low;
    assert sign < 2 && high < 256 && eleven < 2 && low < 1024;
    assert JumpOffset(word) == 2 * half || JumpOffset(word) == 2 * (half - 0x10_0000);
  }
}
