/** The two passes of the assembler over parsed lines: the first sizes lines and
    places labels, the second emits bytes under the complete symbol table. */
module Assembler {
  import opened Bytes
  import opened Options
  import opened Expressions
  import Isa
  import Powers

  type DataWidth = w: nat | w == 1 || w == 2 || w == 4 || w == 8 witness 1
  type FloatWidth = w: nat | w == 2 || w == 4 || w == 8 || w == 16 witness 2

  /** A symbol-table key: a global name, or a local label inside the scope of a global one. */
  datatype Key = Global(name: string) | Local(scope: string, suffix: string)

  /** An operand: text that can be evaluated, a string literal, or another form (memory, bit pattern). */
  datatype Operand = Scalar(tokens: seq<Token>) | Text(bytes: seq<Byte>) | OtherForm(form: string)

  datatype Operation =
    | NoOperation
    | Section(spec: Option<(string, string)>)   // name and flags; None when malformed
    | Equ | Set
    | Data(width: DataWidth)
    | Str(terminated: bool)
    | Align | Balign
    | FloatData(bytes: FloatWidth)
    | UnknownDirective(directive: string)
    | Branch(notEqual: bool) | JumpAndLink
    | Instruction(mnemonic: string)

  datatype Line = Line(labels: seq<string>, operation: Operation, operands: seq<Operand>)

  /** What the passes take from the rest of the assembler: register names, the other instruction
      encoders, and the bits of floating-point literals. */
  datatype Target = Target(
    register: Operand -> Option<nat>,
    encodeOther: (Line, Symbols) -> Option<nat>,
    floatBits: (FloatWidth, Operand) -> Option<nat>)

  type Table = map<Key, int>

  // ---- names and scopes ----

  predicate IsLocalLabel(name: string)
  {
    |name| >= 2 && name[..2] == ".L"
  }

  function CanonicalName(name: string, global: Option<string>): Option<Key>
  {
    if !IsLocalLabel(name) then Some(Global(name))
    else match global case None => None case Some(scope) => Some(Local(scope, name))
  }

  function KeyName(key: Key): string
  {
    match key case Global(name) => name case Local(_, suffix) => suffix
  }

  /** The names an expression can use: every global one, and the local ones of the current scope. */
  function Scoped(values: Table, global: Option<string>): Symbols
  {
    map name | name in (set key | key in values.Keys :: KeyName(key))
      && ((global.Some? && Local(global.value, name) in values) || Global(name) in values)
      :: if global.Some? && Local(global.value, name) in values then values[Local(global.value, name)]
         else values[Global(name)]
  }

  /** Scope after a line's labels; None when a local label has no scope. */
  function UpdateScope(labels: seq<string>, global: Option<string>): Option<Option<string>>
  {
    if labels == [] then Some(global)
    else if IsLocalLabel(labels[0]) then
      if global.None? then None else UpdateScope(labels[1..], global)
    else UpdateScope(labels[1..], Some(labels[0]))
  }

  // ---- operands ----

  function EvaluateOperand(operand: Operand, symbols: Symbols): Option<int>
  {
    match operand case Scalar(tokens) => EvaluateText(tokens, symbols) case _ => None
  }

  function Immediate(operand: Operand, symbols: Symbols, minimum: int, maximum: int): Option<int>
  {
    match EvaluateOperand(operand, symbols)
    case Some(value) => if minimum <= value <= maximum then Some(value) else None
    case None => None
  }

  function DataMinimum(width: nat): int
  {
    if width == 1 then -0x80 else if width == 2 then -0x8000 else if width == 4 then -0x8000_0000
    else -0x8000_0000_0000_0000
  }

  function DataModulus(width: nat): int
  {
    if width == 1 then 0x100 else if width == 2 then 0x1_0000 else if width == 4 then 0x1_0000_0000
    else 0x1_0000_0000_0000_0000
  }

  function DataValues(operands: seq<Operand>, width: nat, symbols: Symbols): Option<seq<Byte>>
  {
    if operands == [] then Some([])
    else match Immediate(operands[0], symbols, DataMinimum(width), DataModulus(width) - 1)
      case None => None
      case Some(value) =>
        var raw := LittleEndian(if value < 0 then value + DataModulus(width) else value, width);
        match DataValues(operands[1..], width, symbols)
        case None => None
        case Some(rest) => Some(raw + rest)
  }

  function FloatValues(operands: seq<Operand>, width: FloatWidth, target: Target): Option<seq<Byte>>
  {
    if operands == [] then Some([])
    else match target.floatBits(width, operands[0])
      case None => None
      case Some(bits) =>
        match FloatValues(operands[1..], width, target)
        case None => None
        case Some(rest) => Some(LittleEndian(bits, width) + rest)
  }

  function StringValues(operands: seq<Operand>, terminated: bool): Option<seq<Byte>>
  {
    if operands == [] then Some([])
    else match operands[0]
      case Text(bytes) =>
        (match StringValues(operands[1..], terminated)
         case None => None
         case Some(rest) => Some(bytes + (if terminated then [0] else []) + rest))
      case _ => None
  }

  function StringSize(operands: seq<Operand>, terminated: bool): Option<nat>
  {
    if operands == [] then Some(0)
    else match operands[0]
      case Text(bytes) =>
        (match StringSize(operands[1..], terminated)
         case None => None
         case Some(rest) => Some(|bytes| + (if terminated then 1 else 0) + rest))
      case _ => None
  }

  function AlignmentPadding(pc: nat, boundary: nat): Option<seq<Byte>>
  {
    if boundary == 0 then None else Some(ZeroBytes((boundary - pc % boundary) % boundary))
  }

  /** The boundary an alignment directive asks for. */
  function AlignmentBoundary(line: Line, symbols: Symbols): Option<nat>
  {
    if |line.operands| != 1 then None
    else if line.operation.Align? then
      match Immediate(line.operands[0], symbols, 0, 63)
      case None => None
      case Some(exponent) => Some(Powers.Pow2(exponent))
    else
      match Immediate(line.operands[0], symbols, 1, 0xffff_ffff_ffff_ffff)
      case None => None
      case Some(boundary) => Some(boundary)
  }

  function AlignBytes(line: Line, pc: nat, symbols: Symbols): Option<seq<Byte>>
  {
    match AlignmentBoundary(line, symbols)
    case None => None
    case Some(boundary) => AlignmentPadding(pc, boundary)
  }

  // ---- symbol definitions ----

  function DefinitionParts(line: Line): Option<(string, Operand)>
  {
    if |line.operands| != 2 then None
    else match line.operands[0]
      case Scalar(tokens) =>
        if |tokens| == 1 && tokens[0].Symbol? && line.operands[1].Scalar? then Some((tokens[0].name, line.operands[1]))
        else None
      case _ => None
  }

  /** A section under construction; its address is known once a line stands in it. */
  datatype SectionState = SectionState(name: string, flags: string, address: Option<nat>, alignment: nat, bytes: seq<Byte>)

  datatype PassOne = PassOne(
    pc: nat, symbols: Table, values: Table, constants: Table, equValues: Table, equNames: set<Key>,
    global: Option<string>, sections: seq<SectionState>)

  function DefineLabels(labels: seq<string>, s: PassOne): Option<PassOne>
    decreases |labels|
  {
    if labels == [] then Some(s)
    else
      var head := labels[0];
      match CanonicalName(head, s.global)
      case None => None
      case Some(key) =>
        if key in s.values then None
        else DefineLabels(labels[1..],
          s.(global := if IsLocalLabel(head) then s.global else Some(head),
             symbols := s.symbols[key := s.pc], values := s.values[key := s.pc]))
  }

  function DefineAbsolute(line: Line, s: PassOne): Option<PassOne>
  {
    if !line.operation.Equ? && !line.operation.Set? then Some(s)
    else match DefinitionParts(line)
      case None => None
      case Some((name, expression)) =>
        match CanonicalName(name, s.global)
        case None => None
        case Some(key) =>
          if key in s.symbols then None
          else if line.operation.Equ? && key in s.values then None
          else if line.operation.Set? && key in s.equNames then None
          else match EvaluateOperand(expression, Scoped(s.values, s.global))
            case None => None
            case Some(value) =>
              var t := s.(values := s.values[key := value], constants := s.constants[key := value]);
              Some(if line.operation.Equ?
                   then t.(equValues := t.equValues[key := value], equNames := t.equNames + {key}) else t)
  }

  const DEFAULT_SECTIONS: seq<SectionState> := [SectionState(".text", "ax", None, 1, [])]

  function FindSection(sections: seq<SectionState>, name: string, i: nat): (r: Option<nat>)
    requires i <= |sections|
    ensures r.Some? ==> i <= r.value < |sections| && sections[r.value].name == name
    ensures r.None? ==> forall k :: i <= k < |sections| ==> sections[k].name != name
    decreases |sections| - i
  {
    if i == |sections| then None else if sections[i].name == name then Some(i) else FindSection(sections, name, i + 1)
  }

  /** The section of a name, appended when it is new; None when its flags would change. */
  function SelectSection(sections: seq<SectionState>, name: string, flags: string): (r: Option<(seq<SectionState>, nat)>)
    ensures r.Some? ==> r.value.1 < |r.value.0|
  {
    match FindSection(sections, name, 0)
    case Some(i) => if sections[i].flags != flags then None else Some((sections, i))
    case None => Some((sections + [SectionState(name, flags, None, 1, [])], |sections|))
  }

  function LineSize(line: Line, pc: nat, symbols: Symbols): Option<nat>
  {
    match line.operation
    case Section(_) => Some(0)
    case Equ => Some(0)
    case Set => Some(0)
    case Data(width) => Some(|line.operands| * width)
    case Str(terminated) => StringSize(line.operands, terminated)
    case Align => (match AlignBytes(line, pc, symbols) case None => None case Some(bytes) => Some(|bytes|))
    case Balign => (match AlignBytes(line, pc, symbols) case None => None case Some(bytes) => Some(|bytes|))
    case _ => Some(4)
  }

  // ---- pass one ----

  const START_ONE := PassOne(0, map[], map[], map[], map[], {}, None, DEFAULT_SECTIONS)

  function DeclareSection(line: Line, s: PassOne): Option<PassOne>
  {
    if !line.operation.Section? then Some(s)
    else match line.operation.spec
      case None => None
      case Some((name, flags)) =>
        match SelectSection(s.sections, name, flags)
        case None => None
        case Some((sections, _)) => Some(s.(sections := sections))
  }

  function SizeLine(line: Line, s: PassOne): Option<PassOne>
  {
    if line.operation.NoOperation? then Some(s)
    else match LineSize(line, s.pc, Scoped(s.values, s.global))
      case None => None
      case Some(size) =>
        if s.pc + size >= 0x1_0000_0000_0000_0000 then None else Some(s.(pc := s.pc + size))
  }

  function StepOne(line: Line, s: PassOne): Option<PassOne>
  {
    match DeclareSection(line, s)
    case None => None
    case Some(declared) =>
      match DefineLabels(line.labels, declared)
      case None => None
      case Some(labelled) =>
        match DefineAbsolute(line, labelled)
        case None => None
        case Some(defined) => SizeLine(line, defined)
  }

  /** Pass one after the first n lines. */
  function AfterOne(lines: seq<Line>, n: nat): Option<PassOne>
    requires n <= |lines|
  {
    if n == 0 then Some(START_ONE)
    else match AfterOne(lines, n - 1) case None => None case Some(s) => StepOne(lines[n - 1], s)
  }

  // ---- pass two ----

  datatype Entry = Entry(address: nat, section: string, bytes: seq<Byte>)

  /** The sections and the one that lines stand in. */
  datatype RawLayout = RawLayout(table: seq<SectionState>, current: nat)
  type Layout = l: RawLayout | l.current < |l.table| witness RawLayout(DEFAULT_SECTIONS, 0)

  datatype PassTwo = PassTwo(
    pc: nat, global: Option<string>, emit: Table, text: seq<Byte>, listing: seq<Entry>, layout: Layout)

  function CurrentSection(layout: Layout): SectionState
  {
    layout.table[layout.current]
  }

  function WithCurrent(layout: Layout, section: SectionState): Layout
  {
    layout.(table := layout.table[layout.current := section])
  }

  /** The current section gets its address at the first line that stands in it. */
  function Opened(layout: Layout, pc: nat): Layout
  {
    var section := CurrentSection(layout);
    if section.address.Some? then layout else WithCurrent(layout, section.(address := Some(pc)))
  }

  /** The current section takes a line's bytes, and the alignment the line asks for. */
  function Filled(layout: Layout, bytes: seq<Byte>, required: Option<nat>): Layout
  {
    var section := CurrentSection(layout);
    var alignment := if required.Some? && required.value > section.alignment then required.value else section.alignment;
    WithCurrent(layout, section.(alignment := alignment, bytes := section.bytes + bytes))
  }

  function RequiredAlignment(line: Line, symbols: Symbols): Option<nat>
  {
    if line.operation.Align? || line.operation.Balign? then AlignmentBoundary(line, symbols) else None
  }

  predicate ReferencesSymbol(tokens: seq<Token>)
  {
    exists i :: 0 <= i < |tokens| && tokens[i].Symbol?
  }

  function ControlIndex(operation: Operation): Option<nat>
  {
    match operation case Branch(_) => Some(2) case JumpAndLink => Some(1) case _ => None
  }

  /** The text of an integer operand. */
  function OffsetTokens(offset: int): seq<Token>
  {
    if offset < 0 then [Minus, Literal(-offset)] else [Literal(offset)]
  }

  /** A control-flow operand that names a symbol becomes the distance to it. */
  function ResolveControlLabel(line: Line, pc: nat, symbols: Symbols): Option<Line>
  {
    match ControlIndex(line.operation)
    case None => Some(line)
    case Some(index) =>
      if index >= |line.operands| then Some(line)
      else match line.operands[index]
        case Scalar(tokens) =>
          if !ReferencesSymbol(tokens) then Some(line)
          else (match EvaluateText(tokens, symbols)
                case None => None
                case Some(value) => Some(line.(operands := line.operands[index := Scalar(OffsetTokens(value - pc))])))
        case _ => None
  }

  function AssembleDirective(line: Line, pc: nat, symbols: Symbols, target: Target): Option<seq<Byte>>
  {
    match line.operation
    case Equ => Some([])
    case Set => Some([])
    case Data(width) => DataValues(line.operands, width, symbols)
    case FloatData(width) => FloatValues(line.operands, width, target)
    case Str(terminated) => StringValues(line.operands, terminated)
    case Align => AlignBytes(line, pc, symbols)
    case Balign => AlignBytes(line, pc, symbols)
    case _ => None
  }

  function EncodeLine(line: Line, symbols: Symbols, target: Target): Option<nat>
  {
    match line.operation
    case Branch(notEqual) =>
      if |line.operands| != 3 then target.encodeOther(line, symbols)
      else (match (target.register(line.operands[0]), target.register(line.operands[1]),
                   Immediate(line.operands[2], symbols, -0x8000, 0x7fff))
            case (Some(rs1), Some(rs2), Some(offset)) =>
              (match Isa.EncodeBranch(notEqual, rs1, rs2, offset) case None => None case Some(word) => Some(word))
            case _ => None)
    case JumpAndLink =>
      if |line.operands| != 2 then target.encodeOther(line, symbols)
      else (match (target.register(line.operands[0]), Immediate(line.operands[1], symbols, -0x8000_0000, 0x7fff_ffff))
            case (Some(rd), Some(offset)) =>
              (match Isa.EncodeJal(rd, offset) case None => None case Some(word) => Some(word))
            case _ => None)
    case Instruction(_) => target.encodeOther(line, symbols)
    case _ => None
  }

  predicate IsInstruction(operation: Operation)
  {
    operation.Branch? || operation.JumpAndLink? || operation.Instruction?
  }

  function AssembleParsed(line: Line, pc: nat, symbols: Symbols, target: Target): Option<seq<Byte>>
  {
    if !IsInstruction(line.operation) then AssembleDirective(line, pc, symbols, target)
    else match EncodeLine(line, symbols, target)
      case None => None
      case Some(word) => Some(LittleEndian(word, 4))
  }

  function ApplySet(line: Line, global: Option<string>, final: PassOne, emit: Table): Option<Table>
  {
    match DefinitionParts(line)
    case None => None
    case Some((name, expression)) =>
      match CanonicalName(name, global)
      case None => None
      case Some(key) =>
        if key in final.symbols || key in final.equNames then None
        else match EvaluateOperand(expression, Scoped(emit, global))
          case None => None
          case Some(value) => Some(emit[key := value])
  }

  function StartTwo(final: PassOne): PassTwo
  {
    PassTwo(0, None, final.symbols + final.equValues, [], [], Opened(RawLayout(DEFAULT_SECTIONS, 0), 0))
  }

  function Listed(s: PassTwo, bytes: seq<Byte>): PassTwo
  {
    s.(listing := s.listing + [Entry(s.pc, CurrentSection(s.layout).name, bytes)])
  }

  /** The line's own work, once its scope is known and its section has an address. */
  function EmitIn(line: Line, s: PassTwo, final: PassOne, target: Target): Option<PassTwo>
  {
    match line.operation
    case NoOperation => Some(Listed(s, []))
    case Set =>
      (match ApplySet(line, s.global, final, s.emit)
       case None => None
       case Some(emit) => Some(Listed(s.(emit := emit), [])))
    case Equ => Some(Listed(s, []))
    case _ =>
      var scoped := Scoped(s.emit, s.global);
      match ResolveControlLabel(line, s.pc, scoped)
      case None => None
      case Some(resolved) =>
        match AssembleParsed(resolved, s.pc, scoped, target)
        case None => None
        case Some(bytes) =>
          Some(Listed(s, bytes).(text := s.text + bytes, pc := s.pc + |bytes|,
                                 layout := Filled(s.layout, bytes, RequiredAlignment(resolved, scoped))))
  }

  function EmitLine(line: Line, s: PassTwo, final: PassOne, target: Target): Option<PassTwo>
  {
    match line.operation
    case Section(spec) =>
      (match spec
       case None => None
       case Some((name, flags)) =>
         match SelectSection(s.layout.table, name, flags)
         case None => None
         case Some((table, current)) => Some(Listed(s.(layout := Opened(RawLayout(table, current), s.pc)), [])))
    case _ => EmitIn(line, s.(layout := Opened(s.layout, s.pc)), final, target)
  }

  function StepTwo(line: Line, s: PassTwo, final: PassOne, target: Target): Option<PassTwo>
  {
    match UpdateScope(line.labels, s.global)
    case None => None
    case Some(global) => EmitLine(line, s.(global := global), final, target)
  }

  /** Pass two after the first n lines. */
  function AfterTwo(lines: seq<Line>, n: nat, final: PassOne, target: Target): Option<PassTwo>
    requires n <= |lines|
  {
    if n == 0 then Some(StartTwo(final))
    else match AfterTwo(lines, n - 1, final, target) case None => None case Some(s) => StepTwo(lines[n - 1], s, final, target)
  }

  datatype SectionImage = SectionImage(name: string, flags: string, address: nat, alignment: nat, bytes: seq<Byte>)

  datatype Image = Image(
    symbols: Table, constants: Table, entry: int, text: seq<Byte>, listing: seq<Entry>, sections: seq<SectionImage>)

  function SectionImages(table: seq<SectionState>, pc: nat): (r: seq<SectionImage>)
    ensures |r| == |table|
  {
    seq<SectionImage>(|table|, i requires 0 <= i < |table| =>
      var section := table[i];
      SectionImage(section.name, section.flags, if section.address.Some? then section.address.value else pc,
                   section.alignment, section.bytes))
  }

  function AssembleProgram(lines: seq<Line>, target: Target): Option<Image>
  {
    match AfterOne(lines, |lines|)
    case None => None
    case Some(final) =>
      match AfterTwo(lines, |lines|, final, target)
      case None => None
      case Some(s) =>
        var start := Global("_start");
        Some(Image(final.symbols, final.constants, if start in final.symbols then final.symbols[start] else 0,
                   s.text, s.listing, SectionImages(s.layout.table, s.pc)))
  }
}
