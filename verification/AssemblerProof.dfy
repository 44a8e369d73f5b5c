/** The passes agree: what pass one placed is what pass two emits. */
module AssemblerProof {
  import opened Bytes
  import opened Options
  import opened Expressions
  import opened Assembler
  import Isa

  // ---- environments ----

  ghost predicate Extends(more: Table, table: Table)
  {
    forall key :: key in table ==> key in more && more[key] == table[key]
  }

  /** Local names and only they are kept under a scope. */
  ghost predicate KeysOk(table: Table)
  {
    forall key :: key in table ==> if key.Global? then !IsLocalLabel(key.name) else IsLocalLabel(key.suffix)
  }

  lemma ScopedExtends(table: Table, more: Table, global: Option<string>)
    requires Extends(more, table) && KeysOk(table) && KeysOk(more)
    ensures forall name :: name in Scoped(table, global) ==>
              name in Scoped(more, global) && Scoped(more, global)[name] == Scoped(table, global)[name]
  {
    forall name | name in Scoped(table, global)
      ensures name in Scoped(more, global) && Scoped(more, global)[name] == Scoped(table, global)[name]
    {
      var key := if global.Some? && Local(global.value, name) in table then Local(global.value, name) else Global(name);
      assert key in table && KeyName(key) == name;
      ScopedName(more, global, key);
    }
  }

  /** A key in reach is what its name means. */
  lemma ScopedName(table: Table, global: Option<string>, key: Key)
    requires KeysOk(table) && key in table && (key.Local? ==> global == Some(key.scope))
    ensures KeyName(key) in Scoped(table, global) && Scoped(table, global)[KeyName(key)] == table[key]
  {
    assert KeyName(key) in (set k | k in table.Keys :: KeyName(k));
    if key.Global? && global.Some? && Local(global.value, key.name) in table { assert false; }
  }

  lemma OperandExtends(operand: Operand, symbols: Symbols, more: Symbols)
    requires EvaluateOperand(operand, symbols).Some?
    requires forall name :: name in symbols ==> name in more && more[name] == symbols[name]
    ensures EvaluateOperand(operand, more) == EvaluateOperand(operand, symbols)
  {
    hide EvaluateText;
    MoreSymbols(operand.tokens, symbols, more);
  }

  // ---- what pass one keeps ----

  /** Labels, .equ constants and the rest never share a key, and values records all of them. */
  ghost predicate TablesOk(s: PassOne)
  {
    && KeysOk(s.values)
    && Extends(s.values, s.symbols)
    && Extends(s.values, s.equValues)
    && s.equNames == s.equValues.Keys
    && s.symbols.Keys !! s.equValues.Keys
  }

  /** Later states only add labels and .equ constants. */
  ghost predicate Grows(t: PassOne, s: PassOne)
  {
    Extends(t.symbols, s.symbols) && Extends(t.equValues, s.equValues)
  }

  lemma {:induction false} LabelsKeep(labels: seq<string>, s: PassOne)
    requires TablesOk(s) && DefineLabels(labels, s).Some?
    ensures var t := DefineLabels(labels, s).value;
            && TablesOk(t) && Grows(t, s) && Extends(t.values, s.values)
            && t.pc == s.pc && t.sections == s.sections && t.equValues == s.equValues && t.equNames == s.equNames
            && UpdateScope(labels, s.global) == Some(t.global)
            && (forall key :: key in t.symbols && key !in s.symbols ==> t.symbols[key] == s.pc)
            && (forall key :: key in t.values && key !in s.values ==> key in t.symbols && key !in s.symbols && t.values[key] == s.pc)
    decreases |labels|
  {
    hide Grows, Extends, KeysOk, IsLocalLabel;
    if labels == [] {
      NoChange(s);
    } else {
      var head := labels[0];
      var key := CanonicalName(head, s.global).value;
      var next := s.(global := if IsLocalLabel(head) then s.global else Some(head),
                     symbols := s.symbols[key := s.pc], values := s.values[key := s.pc]);
      OneLabelKeeps(head, key, s, next);
      LabelsKeep(labels[1..], next);
      var t := DefineLabels(labels, s).value;
      GrowsTransitive(next, s, t);
      ExtendsTransitive(s.values, next.values, t.values);
      NewLabels(key, s, next, t);
    }
  }

  lemma NewLabels(key: Key, s: PassOne, next: PassOne, t: PassOne)
    requires key !in s.values && TablesOk(s) && Grows(t, next) && Extends(t.values, next.values)
    requires next.symbols == s.symbols[key := s.pc] && next.values == s.values[key := s.pc]
    requires forall k :: k in t.symbols && k !in next.symbols ==> t.symbols[k] == s.pc
    requires forall k :: k in t.values && k !in next.values ==> k in t.symbols && k !in next.symbols && t.values[k] == s.pc
    ensures forall k :: k in t.symbols && k !in s.symbols ==> t.symbols[k] == s.pc
    ensures forall k :: k in t.values && k !in s.values ==> k in t.symbols && k !in s.symbols && t.values[k] == s.pc
  {
    hide KeysOk;
    assert key in next.symbols && key in next.values && key !in s.symbols;
  }

  lemma NoChange(s: PassOne)
    ensures Grows(s, s) && Extends(s.values, s.values)
  {
  }

  lemma ExtendsTransitive(a: Table, b: Table, c: Table)
    requires Extends(b, a) && Extends(c, b)
    ensures Extends(c, a)
  {
  }

  lemma OneLabelKeeps(head: string, key: Key, s: PassOne, next: PassOne)
    requires TablesOk(s) && CanonicalName(head, s.global) == Some(key) && key !in s.values
    requires next == s.(global := if IsLocalLabel(head) then s.global else Some(head),
                        symbols := s.symbols[key := s.pc], values := s.values[key := s.pc])
    ensures TablesOk(next) && Grows(next, s) && Extends(next.values, s.values)
  {
    hide IsLocalLabel;
    assert key !in s.symbols && key !in s.equValues;
  }

  lemma AbsoluteKeeps(line: Line, s: PassOne)
    requires TablesOk(s) && DefineAbsolute(line, s).Some?
    ensures var t := DefineAbsolute(line, s).value;
            && TablesOk(t) && Grows(t, s)
            && t.pc == s.pc && t.symbols == s.symbols && t.global == s.global && t.sections == s.sections
  {
    hide Scoped, EvaluateOperand, IsLocalLabel;
    if line.operation.Equ? || line.operation.Set? {
      var key := CanonicalName(DefinitionParts(line).value.0, s.global).value;
      var value := EvaluateOperand(DefinitionParts(line).value.1, Scoped(s.values, s.global)).value;
      DefinitionKeeps(key, value, s, DefineAbsolute(line, s).value, line.operation.Equ?);
    }
  }

  lemma DefinitionKeeps(key: Key, value: int, s: PassOne, t: PassOne, equ: bool)
    requires TablesOk(s) && key !in s.symbols && key !in s.equNames
    requires if key.Global? then !IsLocalLabel(key.name) else IsLocalLabel(key.suffix)
    requires t == s.(values := s.values[key := value], constants := s.constants[key := value],
                     equValues := if equ then s.equValues[key := value] else s.equValues,
                     equNames := if equ then s.equNames + {key} else s.equNames)
    ensures TablesOk(t) && Grows(t, s)
  {
    hide IsLocalLabel;
  }

  lemma StepOneKeeps(line: Line, s: PassOne)
    requires TablesOk(s) && StepOne(line, s).Some?
    ensures TablesOk(StepOne(line, s).value) && Grows(StepOne(line, s).value, s)
    ensures UpdateScope(line.labels, s.global) == Some(StepOne(line, s).value.global)
  {
    hide TablesOk, Grows, DefineLabels, DefineAbsolute, Scoped, LineSize, UpdateScope;
    var declared := DeclareSection(line, s).value;
    TablesIgnoreSections(s, declared);
    LabelsKeep(line.labels, declared);
    var labelled := DefineLabels(line.labels, declared).value;
    AbsoluteKeeps(line, labelled);
    var defined := DefineAbsolute(line, labelled).value;
    TablesIgnoreSections(defined, SizeLine(line, defined).value);
    GrowsTransitive(labelled, declared, defined);
    GrowsTransitive(defined, declared, SizeLine(line, defined).value);
    GrowsTransitive(declared, s, SizeLine(line, defined).value);
  }

  lemma TablesIgnoreSections(s: PassOne, t: PassOne)
    requires TablesOk(s) && t == s.(sections := t.sections, pc := t.pc)
    ensures TablesOk(t) && Grows(t, s)
  {
  }

  lemma GrowsTransitive(t: PassOne, s: PassOne, u: PassOne)
    requires Grows(t, s) && Grows(u, t)
    ensures Grows(u, s)
  {
  }

  lemma {:induction false} PassOneKeeps(lines: seq<Line>, n: nat, m: nat)
    requires n <= m <= |lines| && AfterOne(lines, m).Some?
    ensures AfterOne(lines, n).Some? && TablesOk(AfterOne(lines, n).value)
    ensures TablesOk(AfterOne(lines, m).value) && Grows(AfterOne(lines, m).value, AfterOne(lines, n).value)
    decreases m
  {
    hide TablesOk, StepOne;
    if m == 0 {
      StartOk();
    } else if n == m {
      PassOneKeeps(lines, m - 1, m - 1);
      StepOneKeeps(lines[m - 1], AfterOne(lines, m - 1).value);
    } else {
      PassOneKeeps(lines, n, m - 1);
      StepOneKeeps(lines[m - 1], AfterOne(lines, m - 1).value);
    }
  }

  lemma StartOk()
    ensures TablesOk(START_ONE)
  {
  }

  // ---- sizes ----

  /** A line whose emitted length pass one cannot get wrong: every form except the four
      floating-point data directives, and those when they emit four bytes. */
  predicate SizedLine(line: Line)
  {
    line.operation.FloatData? ==> |line.operands| * line.operation.bytes == 4
  }

  lemma {:induction false} DataLength(operands: seq<Operand>, width: nat, symbols: Symbols)
    requires DataValues(operands, width, symbols).Some?
    ensures |DataValues(operands, width, symbols).value| == |operands| * width
  {
    hide Immediate;
    if operands != [] {
      DataLength(operands[1..], width, symbols);
      OneMore(|operands|, width);
    }
  }

  lemma OneMore(n: int, width: int)
    ensures (n - 1) * width + width == n * width
  {
  }

  lemma {:induction false} FloatLength(operands: seq<Operand>, width: FloatWidth, target: Target)
    requires FloatValues(operands, width, target).Some?
    ensures |FloatValues(operands, width, target).value| == |operands| * width
  {
    if operands != [] {
      FloatLength(operands[1..], width, target);
      OneMore(|operands|, width);
    }
  }

  lemma {:induction false} StringLength(operands: seq<Operand>, terminated: bool)
    ensures StringSize(operands, terminated) ==
            match StringValues(operands, terminated) case None => None case Some(bytes) => Some(|bytes|)
  {
    if operands != [] && operands[0].Text? { StringLength(operands[1..], terminated); }
  }

  /** The bytes an operation emits are as many as pass one counted, exactly when it is a sized line. */
  lemma SizeIsLength(line: Line, resolved: Line, pc: nat, symbols: Symbols, more: Symbols, target: Target)
    requires LineSize(line, pc, symbols).Some? && ResolveControlLabel(line, pc, more) == Some(resolved)
    requires AssembleParsed(resolved, pc, more, target).Some?
    requires forall name :: name in symbols ==> name in more && more[name] == symbols[name]
    ensures |AssembleParsed(resolved, pc, more, target).value| == LineSize(line, pc, symbols).value <==> SizedLine(line)
  {
    hide DataValues, FloatValues, StringValues, StringSize, LittleEndian, EvaluateText, EncodeLine, Immediate, ReferencesSymbol;
    match line.operation {
      case Data(width) => DataLength(line.operands, width, more);
      case FloatData(width) => FloatLength(line.operands, width, target);
      case Str(terminated) => StringLength(line.operands, terminated);
      case Align => AlignSame(line, pc, symbols, more);
      case Balign => AlignSame(line, pc, symbols, more);
      case _ =>
    }
  }

  lemma AlignSame(line: Line, pc: nat, symbols: Symbols, more: Symbols)
    requires AlignBytes(line, pc, symbols).Some?
    requires forall name :: name in symbols ==> name in more && more[name] == symbols[name]
    ensures AlignBytes(line, pc, more) == AlignBytes(line, pc, symbols)
  {
    hide EvaluateOperand, AlignmentPadding;
    OperandExtends(line.operands[0], symbols, more);
  }

  /** `.align n` is accepted exactly for n from 0 to 63 and asks for the boundary 2^n, `.balign n` exactly for n from 1 to
      2^64 - 1 and asks for n; either emits as many zeros as reach the boundary, fewer than it is long. */
  lemma AlignmentReached(line: Line, pc: nat, symbols: Symbols)
    requires line.operation.Align? || line.operation.Balign?
    ensures var value := if |line.operands| == 1 then EvaluateOperand(line.operands[0], symbols) else None;
            var bytes := AlignBytes(line, pc, symbols);
            && (bytes.Some? <==> value.Some? && if line.operation.Align? then 0 <= value.value < 64 else 1 <= value.value < Powers.Pow2(64))
            && (bytes.Some? ==>
                  var boundary: nat := if line.operation.Align? then Powers.Pow2(value.value) else value.value;
                  && |bytes.value| < boundary && (pc + |bytes.value|) % boundary == 0
                  && AlignmentBoundary(line, symbols) == Some(boundary)
                  && forall k :: 0 <= k < |bytes.value| ==> bytes.value[k] == 0)
  {
    hide EvaluateOperand, Powers.Pow2;
    Powers.Pow2Word();
    var boundary := AlignmentBoundary(line, symbols);
    if boundary.Some? { PaddingReaches(pc, boundary.value); }
  }

  lemma PaddingReaches(pc: nat, boundary: nat)
    requires boundary > 0
    ensures var padding := (boundary - pc % boundary) % boundary;
            0 <= padding < boundary && (pc + padding) % boundary == 0
  {
    var q, r := pc / boundary, pc % boundary;
    assert pc == q * boundary + r;
    if r == 0 {
      Multiple(boundary, 1);
      Multiple(boundary, q);
    } else {
      SmallModulus(boundary - r, boundary);
      Multiple(boundary, q + 1);
      assert pc + (boundary - r) == (q + 1) * boundary;
    }
  }

  lemma SmallModulus(a: nat, b: nat)
    requires a < b
    ensures a % b == a
  {
  }

  lemma {:induction false} Multiple(b: nat, q: nat)
    requires b > 0
    ensures (q * b) % b == 0
  {
    if q > 0 {
      Multiple(b, q - 1);
      OneMore(q, b);
      AddModulus((q - 1) * b, b);
    } else {
      SmallModulus(0, b);
    }
  }

  lemma AddModulus(a: nat, b: nat)
    requires b > 0
    ensures (a + b) % b == a % b
  {
    var q, r := a / b, a % b;
    assert a + b == (q + 1) * b + r by { OneMore(q + 1, b); }
    QuotientUnique(a + b, b, q + 1, r);
  }

  lemma QuotientUnique(x: int, d: int, q: int, r: int)
    requires d > 0 && x == q * d + r && 0 <= r < d
    ensures x % d == r
  {
    var q', r' := x / d, x % d;
    assert (q - q') * d == r' - r;
    if q > q' { Larger(q - q', d); }
    if q < q' {
      assert (q' - q) * d == r - r';
      Larger(q' - q, d);
    }
  }

  lemma Larger(k: int, d: int)
    requires k >= 1 && d > 0
    ensures k * d >= d
  {
  }

  // ---- agreement ----

  /** Pass two before line n knows what pass one knew before line n. */
  ghost predicate Informed(s: PassTwo, one: PassOne, final: PassOne)
  {
    && s.global == one.global
    && KeysOk(s.emit)
    && Extends(s.emit, one.values)
    && Extends(s.emit, final.symbols)
    && Extends(s.emit, final.equValues)
  }

  /** Pass two before line n, against pass one before line n. */
  ghost predicate Agrees(s: PassTwo, one: PassOne, final: PassOne)
  {
    s.pc == one.pc && Informed(s, one, final)
  }

  /** The state pass one sizes the line in: labels and definitions done. */
  function Defined(line: Line, one: PassOne): PassOne
    requires StepOne(line, one).Some?
  {
    DefineAbsolute(line, DefineLabels(line.labels, DeclareSection(line, one).value).value).value
  }

  /** After the line's labels, pass two still knows everything pass one knows. */
  lemma LabelsAgree(line: Line, s: PassTwo, one: PassOne, final: PassOne)
    requires Agrees(s, one, final) && TablesOk(one) && StepOne(line, one).Some? && Grows(final, StepOne(line, one).value)
    ensures var labelled := DefineLabels(line.labels, DeclareSection(line, one).value).value;
            && TablesOk(labelled) && Extends(s.emit, labelled.values) && labelled.pc == one.pc
            && Grows(final, labelled) && UpdateScope(line.labels, s.global) == Some(labelled.global)
  {
    hide DefineLabels, DefineAbsolute, Scoped, LineSize, UpdateScope;
    var declared := DeclareSection(line, one).value;
    TablesIgnoreSections(one, declared);
    LabelsKeep(line.labels, declared);
    var labelled := DefineLabels(line.labels, declared).value;
    AbsoluteKeeps(line, labelled);
    var defined := DefineAbsolute(line, labelled).value;
    TablesIgnoreSections(defined, SizeLine(line, defined).value);
    GrowsTransitive(defined, labelled, SizeLine(line, defined).value);
    GrowsTransitive(SizeLine(line, defined).value, labelled, final);
    forall key | key in labelled.values ensures key in s.emit && s.emit[key] == labelled.values[key] {
      if key !in declared.values { assert key in labelled.symbols; }
    }
  }

  /** A `.set` computes the same value in both passes. */
  lemma SetAgrees(line: Line, s: PassTwo, labelled: PassOne, final: PassOne, emit: Table)
    requires line.operation.Set? && TablesOk(labelled) && s.global == labelled.global
    requires KeysOk(s.emit) && Extends(s.emit, labelled.values)
    requires Extends(s.emit, final.symbols) && Extends(s.emit, final.equValues) && final.equNames == final.equValues.Keys
    requires DefineAbsolute(line, labelled).Some? && ApplySet(line, s.global, final, s.emit) == Some(emit)
    ensures KeysOk(emit) && Extends(emit, DefineAbsolute(line, labelled).value.values)
    ensures Extends(emit, final.symbols) && Extends(emit, final.equValues)
  {
    hide Scoped, EvaluateText;
    var (name, expression) := DefinitionParts(line).value;
    ScopedExtends(labelled.values, s.emit, s.global);
    OperandExtends(expression, Scoped(labelled.values, s.global), Scoped(s.emit, s.global));
  }

  /** An `.equ` constant is already in pass two's table. */
  lemma EquAgrees(line: Line, s: PassTwo, labelled: PassOne, final: PassOne)
    requires line.operation.Equ? && DefineAbsolute(line, labelled).Some?
    requires Extends(s.emit, labelled.values) && Extends(s.emit, final.equValues)
    requires Grows(final, DefineAbsolute(line, labelled).value)
    ensures Extends(s.emit, DefineAbsolute(line, labelled).value.values)
  {
    hide Scoped, EvaluateText;
  }

  lemma StepAgrees(line: Line, s: PassTwo, t: PassTwo, one: PassOne, final: PassOne, target: Target)
    requires TablesOk(one) && TablesOk(final) && Agrees(s, one, final)
    requires StepOne(line, one).Some? && Grows(final, StepOne(line, one).value)
    requires StepTwo(line, s, final, target) == Some(t)
    ensures Informed(t, StepOne(line, one).value, final)
    ensures t.pc == StepOne(line, one).value.pc <==> SizedLine(line)
    ensures |t.listing| == |s.listing| + 1 && t.listing[..|s.listing|] == s.listing && t.listing[|s.listing|].address == s.pc
    ensures t.pc == s.pc + |t.listing[|s.listing|].bytes| && t.text == s.text + t.listing[|s.listing|].bytes
  {
    hide TablesOk, Grows, DefineLabels, DefineAbsolute, Scoped, LineSize, UpdateScope, ApplySet, AssembleParsed, ResolveControlLabel,
         Extends, KeysOk, SizedLine;
    OnlyFloatsUnsized(line);
    LabelsAgree(line, s, one, final);
    var labelled := DefineLabels(line.labels, DeclareSection(line, one).value).value;
    var defined := Defined(line, one);
    AbsoluteKeeps(line, labelled);
    var middle := s.(global := labelled.global);
    TablesIgnoreSections(defined, StepOne(line, one).value);
    GrowsTransitive(StepOne(line, one).value, defined, final);
    match line.operation {
      case Set => SetStep(line, middle, labelled, final, t, target);
      case Equ => EquAgrees(line, middle, labelled, final); SizeNothing(line, defined);
      case Section(_) => NotDefinition(line, labelled); SizeNothing(line, defined);
      case NoOperation => NotDefinition(line, labelled);
      case _ =>
        NotDefinition(line, labelled);
        EmittedAgrees(line, middle, labelled, final, target);
    }
  }

  lemma OnlyFloatsUnsized(line: Line)
    ensures !line.operation.FloatData? ==> SizedLine(line)
  {
  }

  lemma NotDefinition(line: Line, s: PassOne)
    requires !line.operation.Equ? && !line.operation.Set?
    ensures DefineAbsolute(line, s) == Some(s)
  {
  }

  lemma SizeNothing(line: Line, s: PassOne)
    requires line.operation.Equ? || line.operation.Set? || line.operation.Section?
    requires SizeLine(line, s).Some?
    ensures SizeLine(line, s).value.pc == s.pc
  {
    hide Scoped;
  }

  lemma SetStep(line: Line, s: PassTwo, labelled: PassOne, final: PassOne, t: PassTwo, target: Target)
    requires line.operation.Set? && TablesOk(labelled) && TablesOk(final) && s.global == labelled.global
    requires KeysOk(s.emit) && Extends(s.emit, labelled.values)
    requires Extends(s.emit, final.symbols) && Extends(s.emit, final.equValues)
    requires DefineAbsolute(line, labelled).Some? && SizeLine(line, DefineAbsolute(line, labelled).value).Some?
    requires EmitLine(line, s, final, target) == Some(t)
    ensures KeysOk(t.emit) && Extends(t.emit, DefineAbsolute(line, labelled).value.values)
    ensures Extends(t.emit, final.symbols) && Extends(t.emit, final.equValues)
    ensures SizeLine(line, DefineAbsolute(line, labelled).value).value.pc == DefineAbsolute(line, labelled).value.pc
  {
    hide Extends, KeysOk, ApplySet, DefineAbsolute, Scoped;
    SetAgrees(line, s, labelled, final, ApplySet(line, s.global, final, s.emit).value);
    SizeNothing(line, DefineAbsolute(line, labelled).value);
  }

  lemma EmittedAgrees(line: Line, s: PassTwo, one: PassOne, final: PassOne, target: Target)
    requires TablesOk(one) && s.pc == one.pc && s.global == one.global
    requires KeysOk(s.emit) && Extends(s.emit, one.values)
    requires SizeLine(line, one).Some? && !line.operation.NoOperation?
    requires ResolveControlLabel(line, s.pc, Scoped(s.emit, s.global)).Some?
    requires AssembleParsed(ResolveControlLabel(line, s.pc, Scoped(s.emit, s.global)).value, s.pc, Scoped(s.emit, s.global), target).Some?
    ensures var resolved := ResolveControlLabel(line, s.pc, Scoped(s.emit, s.global)).value;
            var bytes := AssembleParsed(resolved, s.pc, Scoped(s.emit, s.global), target).value;
            |bytes| == SizeLine(line, one).value.pc - one.pc <==> SizedLine(line)
  {
    hide Scoped, AssembleParsed, ResolveControlLabel, LineSize, SizedLine, Extends, KeysOk;
    TableKeys(one);
    ScopedExtends(one.values, s.emit, s.global);
    SizeIsLength(line, ResolveControlLabel(line, s.pc, Scoped(s.emit, s.global)).value, s.pc,
                 Scoped(one.values, one.global), Scoped(s.emit, s.global), target);
  }

  lemma TableKeys(s: PassOne)
    requires TablesOk(s)
    ensures KeysOk(s.values)
  {
  }

  /** The text so far is the listing's bytes in order, and each entry starts where the ones before end. */
  ghost predicate ListingOk(s: PassTwo)
  {
    && s.pc == |s.text|
    && (forall i :: 0 <= i < |s.listing| ==>
          s.listing[i].address + |s.listing[i].bytes| <= |s.text|
          && s.text[s.listing[i].address..s.listing[i].address + |s.listing[i].bytes|] == s.listing[i].bytes)
    && (forall i :: 0 <= i < |s.listing| ==>
          s.listing[i].address + |s.listing[i].bytes| == if i + 1 < |s.listing| then s.listing[i + 1].address else s.pc)
  }

  lemma ListingGrows(s: PassTwo, t: PassTwo)
    requires ListingOk(s) && |t.listing| == |s.listing| + 1 && t.listing[..|s.listing|] == s.listing
    requires var entry := t.listing[|s.listing|];
             entry.address == s.pc && t.pc == s.pc + |entry.bytes| && t.text == s.text + entry.bytes
    ensures ListingOk(t)
  {
    assert forall i :: 0 <= i < |s.listing| ==> t.listing[i] == t.listing[..|s.listing|][i] == s.listing[i];
    ListingTexts(s, t);
  }

  lemma ListingTexts(s: PassTwo, t: PassTwo)
    requires ListingOk(s) && |t.listing| == |s.listing| + 1
    requires forall i :: 0 <= i < |s.listing| ==> t.listing[i] == s.listing[i]
    requires var entry := t.listing[|s.listing|];
             entry.address == s.pc && t.pc == s.pc + |entry.bytes| && t.text == s.text + entry.bytes
    ensures forall i :: 0 <= i < |t.listing| ==>
              t.listing[i].address + |t.listing[i].bytes| <= |t.text|
              && t.text[t.listing[i].address..t.listing[i].address + |t.listing[i].bytes|] == t.listing[i].bytes
  {
    forall i | 0 <= i < |t.listing|
      ensures t.listing[i].address + |t.listing[i].bytes| <= |t.text|
      ensures t.text[t.listing[i].address..t.listing[i].address + |t.listing[i].bytes|] == t.listing[i].bytes
    {
      if i < |s.listing| {
        var entry := s.listing[i];
        SamePart(s.text, t.text, entry.address, entry.address + |entry.bytes|);
      } else {
        assert t.text[s.pc..s.pc + |t.listing[i].bytes|] == t.listing[i].bytes;
      }
    }
  }

  lemma SamePart(text: seq<Byte>, more: seq<Byte>, from: nat, to: nat)
    requires from <= to <= |text| <= |more| && more[..|text|] == text
    ensures more[from..to] == text[from..to]
  {
    assert forall k :: 0 <= k < |text| ==> more[k] == more[..|text|][k] == text[k];
  }

  /** In every accepted program of sized lines, pass two before each line has pass one's pc and scope, and
      an environment that extends pass one's with equal values. */
  lemma {:induction false} PassesAgree(lines: seq<Line>, n: nat, target: Target)
    requires n <= |lines| && AssembleProgram(lines, target).Some?
    requires forall i :: 0 <= i < |lines| ==> SizedLine(lines[i])
    ensures AfterOne(lines, |lines|).Some? && AfterOne(lines, n).Some?
    ensures AfterTwo(lines, n, AfterOne(lines, |lines|).value, target).Some?
    ensures var final, one := AfterOne(lines, |lines|).value, AfterOne(lines, n).value;
            var s := AfterTwo(lines, n, final, target).value;
            && Agrees(s, one, final) && |s.listing| == n && ListingOk(s)
            && TablesOk(one) && Grows(final, one) && TablesOk(final)
    decreases n
  {
    hide Informed, TablesOk, Grows, StepOne, StepTwo, ListingOk, SizedLine;
    var final := AfterOne(lines, |lines|).value;
    PassOneKeeps(lines, n, |lines|);
    AfterTwoEarlier(lines, n, |lines|, final, target);
    if n == 0 {
      StartAgrees(final);
    } else {
      PassesAgree(lines, n - 1, target);
      var s := AfterTwo(lines, n - 1, final, target).value;
      var t := AfterTwo(lines, n, final, target).value;
      StepAgrees(lines[n - 1], s, t, AfterOne(lines, n - 1).value, final, target);
      ListingGrows(s, t);
    }
  }

  /** The passes stand at the same address before and after every line exactly when every line is sized. */
  lemma AddressesAgreeIff(lines: seq<Line>, target: Target)
    requires AssembleProgram(lines, target).Some?
    ensures (forall n :: 0 <= n <= |lines| ==> SameAddress(lines, n, target))
       <==> (forall k :: 0 <= k < |lines| ==> SizedLine(lines[k]))
  {
    hide SizedLine, AssembleProgram, TablesOk, Grows, Informed, AfterOne, AfterTwo;
    if forall k :: 0 <= k < |lines| ==> SizedLine(lines[k]) {
      forall n | 0 <= n <= |lines| ensures SameAddress(lines, n, target) { PassesAgree(lines, n, target); }
    }
    if forall n :: 0 <= n <= |lines| ==> SameAddress(lines, n, target) { AddressesForceSizes(lines, |lines|, target); }
  }

  predicate SameAddress(lines: seq<Line>, n: nat, target: Target)
    requires n <= |lines|
  {
    match AfterOne(lines, |lines|)
    case None => false
    case Some(final) =>
      match (AfterOne(lines, n), AfterTwo(lines, n, final, target))
      case (Some(one), Some(s)) => s.pc == one.pc
      case _ => false
  }

  lemma {:induction false} AddressesForceSizes(lines: seq<Line>, n: nat, target: Target)
    requires n <= |lines| && AssembleProgram(lines, target).Some?
    requires forall m :: 0 <= m <= n ==> SameAddress(lines, m, target)
    ensures forall k :: 0 <= k < n ==> SizedLine(lines[k])
    ensures AfterOne(lines, |lines|).Some? && AfterOne(lines, n).Some?
    ensures AfterTwo(lines, n, AfterOne(lines, |lines|).value, target).Some?
    ensures Agrees(AfterTwo(lines, n, AfterOne(lines, |lines|).value, target).value, AfterOne(lines, n).value,
                   AfterOne(lines, |lines|).value)
    decreases n
  {
    hide Informed, TablesOk, Grows, StepOne, StepTwo, ListingOk, SizedLine;
    var final := AfterOne(lines, |lines|).value;
    PassOneKeeps(lines, n, |lines|);
    AfterTwoEarlier(lines, n, |lines|, final, target);
    assert SameAddress(lines, n, target);
    if n == 0 {
      StartAgrees(final);
    } else {
      AddressesForceSizes(lines, n - 1, target);
      PassOneKeeps(lines, n - 1, |lines|);
      StepAgrees(lines[n - 1], AfterTwo(lines, n - 1, final, target).value, AfterTwo(lines, n, final, target).value,
                 AfterOne(lines, n - 1).value, final, target);
    }
  }

  lemma {:induction false} AfterTwoEarlier(lines: seq<Line>, n: nat, m: nat, final: PassOne, target: Target)
    requires n <= m <= |lines| && AfterTwo(lines, m, final, target).Some?
    ensures AfterTwo(lines, n, final, target).Some?
    decreases m
  {
    hide StepTwo;
    if n < m { AfterTwoEarlier(lines, n, m - 1, final, target); }
  }

  lemma StartAgrees(final: PassOne)
    requires TablesOk(final)
    ensures Agrees(StartTwo(final), START_ONE, final) && ListingOk(StartTwo(final))
  {
    var emit := final.symbols + final.equValues;
    assert KeysOk(emit) by { assert forall key :: key in emit ==> key in final.values; }
  }

  // ---- labels land where their lines are emitted ----

  /** The last global label before line n, as an accepted program sees it. */
  function ScopeBefore(lines: seq<Line>, n: nat): Option<string>
    requires n <= |lines|
  {
    if n == 0 then None
    else match UpdateScope(lines[n - 1].labels, ScopeBefore(lines, n - 1)) case Some(global) => global case None => None
  }

  lemma {:induction false} ScopeIsKept(lines: seq<Line>, n: nat)
    requires n <= |lines| && AfterOne(lines, n).Some?
    ensures AfterOne(lines, n).value.global == ScopeBefore(lines, n)
    decreases n
  {
    hide TablesOk, StepOne, UpdateScope;
    if n > 0 {
      PassOneKeeps(lines, n - 1, n - 1);
      StepOneKeeps(lines[n - 1], AfterOne(lines, n - 1).value);
      ScopeIsKept(lines, n - 1);
    }
  }

  /** The keys a line's labels define. */
  function LabelKeys(labels: seq<string>, global: Option<string>): seq<Key>
  {
    if labels == [] then []
    else match CanonicalName(labels[0], global)
      case None => []
      case Some(key) => [key] + LabelKeys(labels[1..], if IsLocalLabel(labels[0]) then global else Some(labels[0]))
  }

  lemma {:induction false} LabelsPlaced(labels: seq<string>, s: PassOne, key: Key)
    requires TablesOk(s) && DefineLabels(labels, s).Some?
    requires key in LabelKeys(labels, s.global)
    ensures var t := DefineLabels(labels, s).value; key in t.symbols && t.symbols[key] == s.pc
    decreases |labels|
  {
    var head := labels[0];
    var own := CanonicalName(head, s.global).value;
    var next := s.(global := if IsLocalLabel(head) then s.global else Some(head),
                   symbols := s.symbols[own := s.pc], values := s.values[own := s.pc]);
    LabelsKeep(labels[1..], next);
    if key != own { LabelsPlaced(labels[1..], next, key); }
  }

  /** Every label of line i is in the final table at the address pass two listed for the line. */
  lemma LabelIsItsLine(lines: seq<Line>, i: nat, key: Key, target: Target)
    requires i < |lines| && AssembleProgram(lines, target).Some?
    requires forall k :: 0 <= k < |lines| ==> SizedLine(lines[k])
    requires key in LabelKeys(lines[i].labels, ScopeBefore(lines, i))
    ensures var image := AssembleProgram(lines, target).value;
            && |image.listing| == |lines|
            && key in image.symbols && image.symbols[key] == image.listing[i].address
  {
    hide *;
    ImageOfPasses(lines, target);
    PassesAgree(lines, i, target);
    PassesAgree(lines, i + 1, target);
    var one := AfterOne(lines, i).value;
    ScopeIsKept(lines, i);
    StepOneParts(lines, i);
    var declared := DeclareSection(lines[i], one).value;
    TablesIgnoreSections(one, declared);
    LabelsPlaced(lines[i].labels, declared, key);
    LabelSurvives(lines, i, key, target);
    EntryAddress(lines, i, target);
  }

  lemma ImageOfPasses(lines: seq<Line>, target: Target)
    requires AssembleProgram(lines, target).Some?
    ensures AfterOne(lines, |lines|).Some?
    ensures AssembleProgram(lines, target).value.symbols == AfterOne(lines, |lines|).value.symbols
    ensures AfterTwo(lines, |lines|, AfterOne(lines, |lines|).value, target).Some?
  {
    hide AfterOne, AfterTwo;
  }

  lemma StepOneParts(lines: seq<Line>, i: nat)
    requires i < |lines| && AfterOne(lines, i).Some? && AfterOne(lines, i + 1).Some?
    ensures var one := AfterOne(lines, i).value;
            && StepOne(lines[i], one).Some? && DeclareSection(lines[i], one).Some?
            && DeclareSection(lines[i], one).value == one.(sections := DeclareSection(lines[i], one).value.sections)
            && DefineLabels(lines[i].labels, DeclareSection(lines[i], one).value).Some?
  {
    hide DefineLabels, DefineAbsolute, SizeLine;
  }

  lemma LabelSurvives(lines: seq<Line>, i: nat, key: Key, target: Target)
    requires i < |lines| && AfterOne(lines, |lines|).Some? && AfterOne(lines, i).Some? && AfterOne(lines, i + 1).Some?
    requires TablesOk(AfterOne(lines, i).value)
    requires var one := AfterOne(lines, i).value;
             DeclareSection(lines[i], one).Some? && DefineLabels(lines[i].labels, DeclareSection(lines[i], one).value).Some?
    requires var labelled := DefineLabels(lines[i].labels, DeclareSection(lines[i], AfterOne(lines, i).value).value).value;
             key in labelled.symbols && labelled.symbols[key] == AfterOne(lines, i).value.pc
    ensures var final := AfterOne(lines, |lines|).value; key in final.symbols && final.symbols[key] == AfterOne(lines, i).value.pc
  {
    hide TablesOk, DefineLabels, DefineAbsolute, LineSize, Scoped;
    var one := AfterOne(lines, i).value;
    var declared := DeclareSection(lines[i], one).value;
    TablesIgnoreSections(one, declared);
    LabelsKeep(lines[i].labels, declared);
    AbsoluteKeeps(lines[i], DefineLabels(lines[i].labels, declared).value);
    PassOneKeeps(lines, i + 1, |lines|);
  }

  /** The listing entry of a line keeps the pc pass two had before the line. */
  lemma {:induction false} ListingPrefix(lines: seq<Line>, n: nat, m: nat, target: Target)
    requires n <= m <= |lines| && AssembleProgram(lines, target).Some?
    requires forall k :: 0 <= k < |lines| ==> SizedLine(lines[k])
    ensures AfterOne(lines, |lines|).Some?
    ensures var final := AfterOne(lines, |lines|).value;
            && AfterTwo(lines, n, final, target).Some? && AfterTwo(lines, m, final, target).Some?
            && |AfterTwo(lines, n, final, target).value.listing| == n
            && |AfterTwo(lines, m, final, target).value.listing| == m
            && AfterTwo(lines, m, final, target).value.listing[..n] == AfterTwo(lines, n, final, target).value.listing
    decreases m
  {
    hide Agrees, TablesOk, Grows, StepOne, StepTwo, ListingOk, SizedLine;
    var final := AfterOne(lines, |lines|).value;
    PassesAgree(lines, n, target);
    PassesAgree(lines, m, target);
    if n < m {
      PassesAgree(lines, m - 1, target);
      ListingPrefix(lines, n, m - 1, target);
      var s := AfterTwo(lines, m - 1, final, target).value;
      var t := AfterTwo(lines, m, final, target).value;
      StepAgrees(lines[m - 1], s, t, AfterOne(lines, m - 1).value, final, target);
      PrefixOfPrefix(t.listing, s.listing, n);
    }
  }

  lemma PrefixOfPrefix(t: seq<Entry>, s: seq<Entry>, n: nat)
    requires n <= |s| <= |t| && t[..|s|] == s
    ensures t[..n] == s[..n]
  {
    assert t[..n] == t[..|s|][..n];
  }

  /** The final listing's entry for line i: its address is the pc before it, its bytes what the line emitted. */
  lemma EntryAddress(lines: seq<Line>, i: nat, target: Target)
    requires i < |lines| && AssembleProgram(lines, target).Some?
    requires forall k :: 0 <= k < |lines| ==> SizedLine(lines[k])
    ensures AfterOne(lines, |lines|).Some? && AfterOne(lines, i).Some?
    ensures var image, final := AssembleProgram(lines, target).value, AfterOne(lines, |lines|).value;
            && AfterTwo(lines, i, final, target).Some? && AfterTwo(lines, i + 1, final, target).Some?
            && |image.listing| == |lines|
            && image.listing[i].address == AfterOne(lines, i).value.pc == AfterTwo(lines, i, final, target).value.pc
            && |AfterTwo(lines, i + 1, final, target).value.listing| == i + 1
            && AfterTwo(lines, i + 1, final, target).value.listing[i] == image.listing[i]
            && StepTwo(lines[i], AfterTwo(lines, i, final, target).value, final, target) == Some(AfterTwo(lines, i + 1, final, target).value)
  {
    hide TablesOk, Grows, StepOne, StepTwo, ListingOk, SizedLine, Extends, KeysOk;
    var final := AfterOne(lines, |lines|).value;
    PassesAgree(lines, i, target);
    PassesAgree(lines, i + 1, target);
    ListingPrefix(lines, i + 1, |lines|, target);
    var s := AfterTwo(lines, i, final, target).value;
    var t := AfterTwo(lines, i + 1, final, target).value;
    StepAgrees(lines[i], s, t, AfterOne(lines, i).value, final, target);
    var last := AfterTwo(lines, |lines|, final, target).value;
    assert last.listing[i] == last.listing[..i + 1][i];
  }

  /** Pass one counts four bytes for a `.double`, pass two emits eight: a label after one is misplaced. */
  lemma DoubleMisplacesLabels(literal: Operand, target: Target)
    requires target.floatBits(8, literal).Some?
    ensures var lines := [Line([], FloatData(8), [literal]), Line(["after"], NoOperation, [])];
            && AssembleProgram(lines, target).Some?
            && |AssembleProgram(lines, target).value.listing| == 2
            && Global("after") in AssembleProgram(lines, target).value.symbols
            && AssembleProgram(lines, target).value.symbols[Global("after")] == 4
            && AssembleProgram(lines, target).value.listing[1].address == 8
  {
    hide EvaluateText, Scoped, LittleEndian;
    var lines := [Line([], FloatData(8), [literal]), Line(["after"], NoOperation, [])];
    assert lines[0].operands[1..] == [];
    var one := StepOne(lines[0], START_ONE).value;
    assert AfterOne(lines, 1) == Some(one) && one == START_ONE.(pc := 4);
    assert lines[1].labels[1..] == [] && !IsLocalLabel("after") by { assert "after"[..2][0] == 'a'; }
    var final := StepOne(lines[1], one).value;
    assert AfterOne(lines, 2) == Some(final) && final.symbols == map[Global("after") := 4];
    assert FloatValues([literal][1..], 8, target) == Some([]);
    assert FloatValues([literal], 8, target).Some? && |FloatValues([literal], 8, target).value| == 8;
    var s := StepTwo(lines[0], StartTwo(final), final, target).value;
    assert s.pc == 8 && AfterTwo(lines, 1, final, target) == Some(s);
    var t := StepTwo(lines[1], s, final, target).value;
    assert t.listing[1].address == 8 && AfterTwo(lines, 2, final, target) == Some(t);
  }

  /** The line defines the name by the tokens. */
  predicate Definition(line: Line, name: string, tokens: seq<Token>)
  {
    line.operands == [Scalar([Symbol(name)]), Scalar(tokens)]
  }

  /** `.equ` and `.set` are accepted exactly when they give a name an expression with a value, the name has a scope if it
      is local and is no label yet, and `.equ` finds it new, `.set` not made by `.equ`. */
  lemma DefinitionAcceptedIff(line: Line, s: PassOne)
    requires line.operation.Equ? || line.operation.Set?
    ensures DefineAbsolute(line, s).Some?
       <==> exists name, tokens :: Definition(line, name, tokens)
              && (IsLocalLabel(name) ==> s.global.Some?)
              && var key := if IsLocalLabel(name) then Local(s.global.value, name) else Global(name);
                 && key !in s.symbols && key !in (if line.operation.Equ? then s.values.Keys else s.equNames)
                 && EvaluateText(tokens, Scoped(s.values, s.global)).Some?
  {
    hide EvaluateText, Scoped, IsLocalLabel;
    var parts := DefinitionParts(line);
    if parts.Some? {
      assert line.operands[0].tokens == [Symbol(parts.value.0)];
      assert Definition(line, parts.value.0, parts.value.1.tokens);
    }
    forall name, tokens | Definition(line, name, tokens) ensures parts == Some((name, Scalar(tokens))) {
    }
  }

  /** Local labels are the names that start with .L. */
  lemma LocalLabels(name: string)
    ensures IsLocalLabel(name) <==> exists suffix: string :: name == ".L" + suffix
  {
    if IsLocalLabel(name) { assert name == ".L" + name[2..]; }
  }

  /** Every address pass one reaches and every label it places is a 64-bit word. */
  lemma {:induction false} AddressesAreWords(lines: seq<Line>, n: nat)
    requires n <= |lines| && AfterOne(lines, n).Some?
    ensures var s := AfterOne(lines, n).value;
            s.pc < Powers.Pow2(64) && forall key :: key in s.symbols ==> 0 <= s.symbols[key] < Powers.Pow2(64)
    decreases n
  {
    hide LineSize, Scoped, EvaluateOperand, DefineLabels, Powers.Pow2;
    Powers.Pow2Word();
    if n > 0 {
      AddressesAreWords(lines, n - 1);
      LabelsAreWords(lines[n - 1].labels, DeclareSection(lines[n - 1], AfterOne(lines, n - 1).value).value);
    }
  }

  lemma {:induction false} LabelsAreWords(labels: seq<string>, s: PassOne)
    requires DefineLabels(labels, s).Some? && s.pc < 0x1_0000_0000_0000_0000
    requires forall key :: key in s.symbols ==> 0 <= s.symbols[key] < 0x1_0000_0000_0000_0000
    ensures var t := DefineLabels(labels, s).value;
            t.pc == s.pc && forall key :: key in t.symbols ==> 0 <= t.symbols[key] < 0x1_0000_0000_0000_0000
    decreases |labels|
  {
    if labels != [] {
      var key := CanonicalName(labels[0], s.global).value;
      LabelsAreWords(labels[1..], s.(global := if IsLocalLabel(labels[0]) then s.global else Some(labels[0]),
                                     symbols := s.symbols[key := s.pc], values := s.values[key := s.pc]));
    }
  }

  /** The program is entered at the line labelled _start, and at zero when no line is. */
  lemma EntryIsStart(lines: seq<Line>, j: nat, target: Target)
    requires j < |lines| && AssembleProgram(lines, target).Some?
    requires forall k :: 0 <= k < |lines| ==> SizedLine(lines[k])
    ensures |AssembleProgram(lines, target).value.listing| == |lines|
    ensures var image := AssembleProgram(lines, target).value;
            && (Global("_start") in LabelKeys(lines[j].labels, ScopeBefore(lines, j)) ==> image.entry == image.listing[j].address)
            && (Global("_start") !in image.symbols ==> image.entry == 0)
  {
    hide AfterOne, AfterTwo, LabelKeys, ScopeBefore, SizedLine;
    EntryAddress(lines, j, target);
    if Global("_start") in LabelKeys(lines[j].labels, ScopeBefore(lines, j)) { LabelIsItsLine(lines, j, Global("_start"), target); }
  }
}
