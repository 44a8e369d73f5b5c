/** A branch or jump whose operand names symbols is assembled to the distance
    that reaches their value; written with a label, it lands on the labelled line. */
module ControlTransfer {
  import opened Bytes
  import opened Options
  import opened Expressions
  import opened Assembler
  import opened AssemblerProof
  import Isa
  import Powers

  lemma OffsetTokensBack(offset: int, symbols: Symbols)
    requires EvaluateText(OffsetTokens(offset), symbols).Some?
    ensures EvaluateText(OffsetTokens(offset), symbols) == Some(offset)
  {
    hide Suffix;
    var tokens := OffsetTokens(offset);
    if offset < 0 {
      assert tokens[1..] == [Literal(-offset)];
      assert tokens[1..][1..] == [];
      assert EvalPrefix(tokens[1..], symbols) == Done(-offset, []);
      assert EvalPrefix(tokens, symbols).Done? ==> EvalPrefix(tokens, symbols) == Done(offset, []);
    } else {
      assert tokens[1..] == [];
      assert EvalPrefix(tokens, symbols) == Done(offset, []);
    }
    assert EvalLoop(offset, [], symbols, 0) == Done(offset, []);
  }

  /** The word is the transfer the operation names, over the given distance. */
  predicate Transfers(operation: Operation, word: nat, distance: int)
  {
    match Isa.Decode(word)
    case Beq(_, _, offset) => operation == Branch(false) && offset == distance
    case Bne(_, _, offset) => operation == Branch(true) && offset == distance
    case Jal(_, offset) => operation == JumpAndLink && offset == distance
    case _ => false
  }

  /** A transfer with its full operands, the last of them text. */
  predicate FullTransfer(line: Line)
  {
    match ControlIndex(line.operation)
    case None => false
    case Some(index) => |line.operands| == index + 1 && line.operands[index].Scalar?
  }

  function TargetTokens(line: Line): seq<Token>
    requires FullTransfer(line)
  {
    line.operands[ControlIndex(line.operation).value].tokens
  }

  /** A full transfer whose last operand names symbols. */
  predicate SymbolicTransfer(line: Line)
  {
    FullTransfer(line) && exists token :: token in TargetTokens(line) && token.Symbol?
  }

  lemma SymbolsAreReferenced(line: Line)
    requires FullTransfer(line)
    ensures SymbolicTransfer(line) <==> ReferencesSymbol(TargetTokens(line))
  {
    var tokens := TargetTokens(line);
    if ReferencesSymbol(tokens) {
      var i :| 0 <= i < |tokens| && tokens[i].Symbol?;
      assert tokens[i] in tokens;
    }
  }

  lemma EncodedBranch(line: Line, symbols: Symbols, target: Target)
    requires line.operation.Branch? && |line.operands| == 3 && line.operands[2].Scalar?
    requires EncodeLine(line, symbols, target).Some?
    ensures EvaluateText(line.operands[2].tokens, symbols).Some?
    ensures var word := EncodeLine(line, symbols, target).value;
            word < 0x1_0000_0000 && Transfers(line.operation, word, EvaluateText(line.operands[2].tokens, symbols).value)
  {
    hide EvaluateText, Isa.EncodeBranch, Isa.EncodeJal, Isa.Decode;
    Isa.BranchRoundTrip(line.operation.notEqual, target.register(line.operands[0]).value,
                        target.register(line.operands[1]).value, EvaluateText(line.operands[2].tokens, symbols).value);
  }

  lemma EncodedJump(line: Line, symbols: Symbols, target: Target)
    requires line.operation.JumpAndLink? && |line.operands| == 2 && line.operands[1].Scalar?
    requires EncodeLine(line, symbols, target).Some?
    ensures EvaluateText(line.operands[1].tokens, symbols).Some?
    ensures var word := EncodeLine(line, symbols, target).value;
            word < 0x1_0000_0000 && Transfers(line.operation, word, EvaluateText(line.operands[1].tokens, symbols).value)
  {
    hide EvaluateText, Isa.EncodeBranch, Isa.EncodeJal, Isa.Decode;
    Isa.JalRoundTrip(target.register(line.operands[0]).value, EvaluateText(line.operands[1].tokens, symbols).value);
  }

  /** What is emitted for a transfer covers the value of its operand, and if that names symbols, the distance from the line
      to it. */
  lemma EmittedTransfer(line: Line, pc: nat, symbols: Symbols, target: Target, bytes: seq<Byte>)
    requires FullTransfer(line) && ResolveControlLabel(line, pc, symbols).Some?
    requires AssembleParsed(ResolveControlLabel(line, pc, symbols).value, pc, symbols, target) == Some(bytes)
    ensures EvaluateText(TargetTokens(line), symbols).Some?
    ensures |bytes| == 4
    ensures Transfers(line.operation, LittleEndianValue(bytes),
                      EvaluateText(TargetTokens(line), symbols).value - if SymbolicTransfer(line) then pc else 0)
  {
    hide EvaluateText, ReferencesSymbol, LittleEndian, LittleEndianValue, OffsetTokens, EncodeLine, Transfers;
    SymbolsAreReferenced(line);
    var resolved := ResolveControlLabel(line, pc, symbols).value;
    if line.operation.Branch? {
      EncodedBranch(resolved, symbols, target);
    } else {
      EncodedJump(resolved, symbols, target);
    }
    if SymbolicTransfer(line) { OffsetTokensBack(EvaluateText(TargetTokens(line), symbols).value - pc, symbols); }
    Powers.Pow2Bytes();
    LittleEndianBack(EncodeLine(resolved, symbols, target).value, 4);
  }

  /** The symbols line i is assembled under. */
  function EmitSymbols(lines: seq<Line>, i: nat, target: Target): Symbols
    requires i < |lines| && AssembleProgram(lines, target).Some?
  {
    match AfterTwo(lines, i, AfterOne(lines, |lines|).value, target)
    case None => map[]
    case Some(s) => Scoped(s.emit, ScopeBefore(lines, i + 1))
  }

  /** In an accepted program a transfer decodes to the distance between its own address and the value of its operand when
      that names symbols, and to the value itself when it does not. */
  lemma TransferReaches(lines: seq<Line>, i: nat, target: Target)
    requires i < |lines| && AssembleProgram(lines, target).Some? && FullTransfer(lines[i])
    requires forall k :: 0 <= k < |lines| ==> SizedLine(lines[k])
    ensures |AssembleProgram(lines, target).value.listing| == |lines|
    ensures var entry := AssembleProgram(lines, target).value.listing[i];
            var value := EvaluateText(TargetTokens(lines[i]), EmitSymbols(lines, i, target));
            && |entry.bytes| == 4 && value.Some?
            && Transfers(lines[i].operation, LittleEndianValue(entry.bytes),
                         value.value - if SymbolicTransfer(lines[i]) then entry.address else 0)
  {
    hide *;
    EntryAddress(lines, i, target);
    StepScope(lines, i, target);
    var final := AfterOne(lines, |lines|).value;
    var s := AfterTwo(lines, i, final, target).value;
    var t := AfterTwo(lines, i + 1, final, target).value;
    StepEmits(lines[i], s, t, final, target);
    var symbols := Scoped(s.emit, t.global);
    PassesAgree(lines, i, target);
    ListingLength(lines, i, target);
    EmittedTransfer(lines[i], s.pc, symbols, target, t.listing[|s.listing|].bytes);
  }

  lemma ListingLength(lines: seq<Line>, i: nat, target: Target)
    requires i < |lines| && AssembleProgram(lines, target).Some?
    requires forall k :: 0 <= k < |lines| ==> SizedLine(lines[k])
    ensures AfterOne(lines, |lines|).Some? && AfterTwo(lines, i, AfterOne(lines, |lines|).value, target).Some?
    ensures |AfterTwo(lines, i, AfterOne(lines, |lines|).value, target).value.listing| == i
  {
    hide *;
    PassesAgree(lines, i, target);
  }

  /** The scope line i is assembled in is the one before line i + 1. */
  lemma StepScope(lines: seq<Line>, i: nat, target: Target)
    requires i < |lines| && AssembleProgram(lines, target).Some?
    requires forall k :: 0 <= k < |lines| ==> SizedLine(lines[k])
    ensures AfterOne(lines, |lines|).Some?
    ensures var final := AfterOne(lines, |lines|).value;
            && AfterTwo(lines, i, final, target).Some? && AfterTwo(lines, i + 1, final, target).Some?
            && AfterTwo(lines, i + 1, final, target).value.global == ScopeBefore(lines, i + 1)
            && EmitSymbols(lines, i, target)
               == Scoped(AfterTwo(lines, i, final, target).value.emit, AfterTwo(lines, i + 1, final, target).value.global)
  {
    hide TablesOk, Grows, StepOne, StepTwo, ListingOk, SizedLine, Extends, KeysOk, AfterOne, AfterTwo, ScopeBefore, Scoped, AssembleProgram;
    PassesAgree(lines, i, target);
    PassesAgree(lines, i + 1, target);
    ScopeIsKept(lines, i + 1);
  }

  lemma StepEmits(line: Line, s: PassTwo, t: PassTwo, final: PassOne, target: Target)
    requires StepTwo(line, s, final, target) == Some(t) && FullTransfer(line)
    ensures |t.listing| == |s.listing| + 1
    ensures var symbols := Scoped(s.emit, t.global);
            && ResolveControlLabel(line, s.pc, symbols).Some?
            && AssembleParsed(ResolveControlLabel(line, s.pc, symbols).value, s.pc, symbols, target)
               == Some(t.listing[|s.listing|].bytes)
  {
    hide ResolveControlLabel, AssembleParsed, Scoped, UpdateScope;
  }

  lemma NameEvaluates(name: string, symbols: Symbols)
    requires name in symbols
    ensures EvaluateText([Symbol(name)], symbols) == Some(symbols[name])
  {
    hide Suffix;
    var tokens := [Symbol(name)];
    assert tokens[1..] == [];
    assert EvalPrefix(tokens, symbols) == Done(symbols[name], []);
    assert EvalLoop(symbols[name], [], symbols, 0) == Done(symbols[name], []);
  }

  /** A label's name means the label's address to every line in whose scope it is. */
  lemma LabelMeans(lines: seq<Line>, i: nat, j: nat, key: Key, target: Target)
    requires i < |lines| && j < |lines| && AssembleProgram(lines, target).Some?
    requires forall k :: 0 <= k < |lines| ==> SizedLine(lines[k])
    requires key in LabelKeys(lines[j].labels, ScopeBefore(lines, j))
    requires key.Local? ==> ScopeBefore(lines, i + 1) == Some(key.scope)
    ensures |AssembleProgram(lines, target).value.listing| == |lines|
    ensures KeyName(key) in EmitSymbols(lines, i, target)
    ensures EmitSymbols(lines, i, target)[KeyName(key)] == AssembleProgram(lines, target).value.listing[j].address
  {
    hide *;
    LabelIsItsLine(lines, j, key, target);
    ImageOfPasses(lines, target);
    StepScope(lines, i, target);
    EmitKnows(lines, i, key, target);
    ScopedName(AfterTwo(lines, i, AfterOne(lines, |lines|).value, target).value.emit, ScopeBefore(lines, i + 1), key);
  }

  lemma EmitKnows(lines: seq<Line>, i: nat, key: Key, target: Target)
    requires i < |lines| && AssembleProgram(lines, target).Some?
    requires forall k :: 0 <= k < |lines| ==> SizedLine(lines[k])
    requires key in AssembleProgram(lines, target).value.symbols
    ensures AfterOne(lines, |lines|).Some? && AfterTwo(lines, i, AfterOne(lines, |lines|).value, target).Some?
    ensures var emit := AfterTwo(lines, i, AfterOne(lines, |lines|).value, target).value.emit;
            KeysOk(emit) && key in emit && emit[key] == AssembleProgram(lines, target).value.symbols[key]
  {
    hide TablesOk, Grows, StepOne, StepTwo, ListingOk, SizedLine, AfterOne, AfterTwo, KeysOk, AssembleProgram;
    PassesAgree(lines, i, target);
    ImageOfPasses(lines, target);
  }

  /** A transfer written with a label decodes to an offset that lands on the address where the labelled
      line was emitted. */
  lemma TransferLandsOnLabel(lines: seq<Line>, i: nat, j: nat, key: Key, target: Target)
    requires i < |lines| && j < |lines| && AssembleProgram(lines, target).Some?
    requires forall k :: 0 <= k < |lines| ==> SizedLine(lines[k])
    requires FullTransfer(lines[i]) && TargetTokens(lines[i]) == [Symbol(KeyName(key))]
    requires CanonicalName(KeyName(key), ScopeBefore(lines, i + 1)) == Some(key)
    requires key in LabelKeys(lines[j].labels, ScopeBefore(lines, j))
    ensures |AssembleProgram(lines, target).value.listing| == |lines|
    ensures var listing := AssembleProgram(lines, target).value.listing;
            Transfers(lines[i].operation, LittleEndianValue(listing[i].bytes), listing[j].address - listing[i].address)
  {
    hide EvaluateText, Transfers, LittleEndianValue, AssembleProgram, EmitSymbols, ScopeBefore, LabelKeys, IsLocalLabel, FullTransfer;
    assert Symbol(KeyName(key)) in TargetTokens(lines[i]);
    TransferReaches(lines, i, target);
    LabelMeans(lines, i, j, key, target);
    NameEvaluates(KeyName(key), EmitSymbols(lines, i, target));
  }
}
