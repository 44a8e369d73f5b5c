/** Conditional assembly: the frame machine that reads a source line by line, and
    the nested blocks it recognises. */
module Conditionals {
  import opened Options
  import opened Expressions
  import Assembler
  import Macros

  type Table = Assembler.Table

  /** What a line that is neither conditional nor macro syntax does to the symbols conditions can use. */
  datatype Definition = NoDefinition | Unparsable | Defines(line: Assembler.Line)

  /** A line by its control syntax. A macro header that is malformed carries no name. */
  datatype Item =
    | If(condition: seq<Token>)
    | Else
    | EndIf
    | BadConditional
    | MacroStart(header: Option<(string, seq<string>)>)
    | MacroEnd
    | Plain(line: Macros.SourceLine, definition: Definition)

  const MAX_CONDITIONALS := 32
  const MAX_BODY := 4096
  const MAX_DEFINITIONS := 256

  datatype Frame = Frame(parentActive: bool, conditionTrue: bool, branchActive: bool, elseSeen: bool)

  /** What selected lines build up: retained lines, macros, and the symbols conditions see. */
  datatype Selected = Selected(
    retained: seq<Macros.SourceLine>, macros: Macros.MacroTable,
    values: Table, equValues: Table, equNames: set<Assembler.Key>, global: Option<string>)

  /** Between macros, in a macro of a live branch, or in one (nested `depth` deep) of a dead branch. */
  datatype Mode = Idle | Collecting(name: string, parameters: seq<string>, body: seq<Macros.SourceLine>) | Skipping(depth: nat)

  datatype State = State(frames: seq<Frame>, mode: Mode, selected: Selected)

  const START := State([], Idle, Selected([], map[], map[], map[], {}, None))

  predicate Active(frames: seq<Frame>)
  {
    forall i :: 0 <= i < |frames| ==> frames[i].branchActive
  }

  function Holds(condition: seq<Token>, s: Selected): Option<bool>
  {
    match EvaluateText(condition, Assembler.Scoped(s.values, s.global))
    case None => None
    case Some(value) => Some(value != 0)
  }

  /** The pass-one tables that the definitions in selected lines are applied to: no labels. */
  function Tables(s: Selected): Assembler.PassOne
  {
    Assembler.PassOne(0, map[], s.values, map[], s.equValues, s.equNames, s.global, [])
  }

  function Retain(line: Macros.SourceLine, definition: Definition, s: Selected): Option<Selected>
  {
    var kept := s.(retained := s.retained + [line]);
    match definition
    case NoDefinition => Some(kept)
    case Unparsable => None
    case Defines(parsed) =>
      match Assembler.UpdateScope(parsed.labels, s.global)
      case None => None
      case Some(global) =>
        match Assembler.DefineAbsolute(parsed, Tables(s.(global := global)))
        case None => None
        case Some(t) => Some(kept.(values := t.values, equValues := t.equValues, equNames := t.equNames, global := global))
  }

  /** A header that opens a new macro. */
  function OpenMacro(header: Option<(string, seq<string>)>, macros: Macros.MacroTable): Option<(string, seq<string>)>
  {
    match header
    case None => None
    case Some((name, parameters)) =>
      if name in macros || |macros| >= MAX_DEFINITIONS then None else Some((name, parameters))
  }

  // ---- the machine ----

  function Step(item: Item, s: State): Option<State>
  {
    match s.mode
    case Skipping(depth) =>
      var after := if item.MacroStart? then depth + 1 else if item.MacroEnd? then depth - 1 else depth;
      Some(s.(mode := if after <= 0 then Idle else Skipping(after)))
    case Collecting(name, parameters, body) =>
      (match item
       case MacroEnd =>
         Some(s.(mode := Idle, selected := s.selected.(macros := s.selected.macros[name := Macros.Macro(parameters, body)])))
       case Plain(line, _) =>
         if |body| >= MAX_BODY then None else Some(s.(mode := Collecting(name, parameters, body + [line])))
       case _ => None)
    case Idle =>
      match item
      case If(condition) =>
        if |s.frames| >= MAX_CONDITIONALS then None
        else if !Active(s.frames) then Some(s.(frames := s.frames + [Frame(false, false, false, false)]))
        else (match Holds(condition, s.selected)
              case None => None
              case Some(truth) => Some(s.(frames := s.frames + [Frame(true, truth, truth, false)])))
      case Else =>
        if s.frames == [] then None
        else
          var last := s.frames[|s.frames| - 1];
          if last.elseSeen then None
          else Some(s.(frames := s.frames[..|s.frames| - 1]
                    + [last.(elseSeen := true, branchActive := last.parentActive && !last.conditionTrue)]))
      case EndIf => if s.frames == [] then None else Some(s.(frames := s.frames[..|s.frames| - 1]))
      case BadConditional => None
      case MacroStart(header) =>
        if !Active(s.frames) then Some(s.(mode := Skipping(1)))
        else (match OpenMacro(header, s.selected.macros)
              case None => None
              case Some((name, parameters)) => Some(s.(mode := Collecting(name, parameters, []))))
      case MacroEnd => None
      case Plain(line, definition) =>
        if !Active(s.frames) then Some(s)
        else match Retain(line, definition, s.selected) case None => None case Some(t) => Some(s.(selected := t))
  }

  function Run(items: seq<Item>, s: State): Option<State>
    decreases |items|
  {
    if items == [] then Some(s)
    else match Step(items[0], s) case None => None case Some(t) => Run(items[1..], t)
  }

  /** The lines and macros of an accepted source. */
  function Preprocess(items: seq<Item>): Option<Selected>
  {
    match Run(items, START)
    case None => None
    case Some(s) => if s.mode == Idle && s.frames == [] then Some(s.selected) else None
  }

  // ---- nested blocks ----

  datatype Node =
    | Keep(line: Macros.SourceLine, definition: Definition)
    | Define(header: Option<(string, seq<string>)>, content: seq<Item>)
    | Conditional(condition: seq<Token>, yes: seq<Node>, hasElse: bool, no: seq<Node>)

  /** The nesting of macro definitions after these items, from a start; never back to zero. */
  function MacroDepth(items: seq<Item>, depth: nat): nat
    decreases |items|
  {
    if depth == 0 || items == [] then depth
    else MacroDepth(items[1..], if items[0].MacroStart? then depth + 1 else if items[0].MacroEnd? then depth - 1 else depth)
  }

  /** The block is balanced: macro contents close what they open, and no lines are in a missing branch. */
  ghost predicate Balanced(block: seq<Node>)
    decreases block
  {
    forall k :: 0 <= k < |block| ==> BalancedNode(block[k])
  }

  ghost predicate BalancedNode(node: Node)
    decreases node
  {
    match node
    case Keep(_, _) => true
    case Define(_, content) => MacroDepth(content, 1) == 1
    case Conditional(_, yes, hasElse, no) => Balanced(yes) && Balanced(no) && (!hasElse ==> no == [])
  }

  function Flatten(block: seq<Node>): seq<Item>
    decreases block, 0
  {
    if block == [] then [] else FlattenNode(block[0]) + Flatten(block[1..])
  }

  function FlattenNode(node: Node): seq<Item>
    decreases node, 1
  {
    match node
    case Keep(line, definition) => [Plain(line, definition)]
    case Define(header, content) => [MacroStart(header)] + content + [MacroEnd]
    case Conditional(condition, yes, hasElse, no) =>
      [If(condition)] + Flatten(yes) + (if hasElse then [Else] + Flatten(no) else []) + [EndIf]
  }

  /** Conditionals nest at most this deep inside the block. */
  predicate Shallow(block: seq<Node>, depth: nat)
    decreases block, 0
  {
    block == [] || (ShallowNode(block[0], depth) && Shallow(block[1..], depth))
  }

  predicate ShallowNode(node: Node, depth: nat)
    decreases node, 1
  {
    match node
    case Conditional(_, yes, _, no) => depth > 0 && Shallow(yes, depth - 1) && Shallow(no, depth - 1)
    case _ => true
  }

  // ---- selection ----

  /** The lines of a macro body, if it holds only plain lines and is not too long. */
  function Body(content: seq<Item>): Option<seq<Macros.SourceLine>>
  {
    if content == [] then Some([])
    else
      var last := content[|content| - 1];
      match Body(content[..|content| - 1])
      case None => None
      case Some(body) => if last.Plain? && |body| < MAX_BODY then Some(body + [last.line]) else None
  }

  /** A block with its live branches selected and its dead ones left unread. */
  function Select(block: seq<Node>, s: Selected): Option<Selected>
    decreases block, 0
  {
    if block == [] then Some(s)
    else match SelectNode(block[0], s) case None => None case Some(t) => Select(block[1..], t)
  }

  function SelectNode(node: Node, s: Selected): Option<Selected>
    decreases node, 1
  {
    match node
    case Keep(line, definition) => Retain(line, definition, s)
    case Define(header, content) =>
      (match (OpenMacro(header, s.macros), Body(content))
       case (Some((name, parameters)), Some(body)) => Some(s.(macros := s.macros[name := Macros.Macro(parameters, body)]))
       case _ => None)
    case Conditional(condition, yes, _, no) =>
      match EvaluateText(condition, Assembler.Scoped(s.values, s.global))
      case None => None
      case Some(value) => if value != 0 then Select(yes, s) else Select(no, s)
  }

  /** A condition is evaluated under the symbols in scope: any number but zero selects the yes branch, zero the no branch,
      and a condition without a value refuses the source. */
  lemma ConditionDecides(condition: seq<Token>, yes: seq<Node>, hasElse: bool, no: seq<Node>, s: Selected)
    ensures var node, value := Conditional(condition, yes, hasElse, no), EvaluateText(condition, Assembler.Scoped(s.values, s.global));
            && (value.Some? && value.value != 0 ==> SelectNode(node, s) == Select(yes, s))
            && (value == Some(0) ==> SelectNode(node, s) == Select(no, s))
            && (value == None ==> SelectNode(node, s) == None)
  {
    hide EvaluateText, Assembler.Scoped;
  }

  /** A definition is taken exactly when its header could be read and its name is new, fewer than 256 macros are defined,
      and its contents are at most 4096 plain lines; these lines, in order, are then the macro's body. */
  lemma DefinitionIsTaken(header: Option<(string, seq<string>)>, content: seq<Item>, s: Selected)
    ensures var taken := SelectNode(Define(header, content), s);
            && (taken.Some? <==> header.Some? && header.value.0 !in s.macros && |s.macros| < 256
                                 && |content| <= 4096 && forall k :: 0 <= k < |content| ==> content[k].Plain?)
            && (taken.Some? ==>
                  header.value.0 in taken.value.macros
                  && var definition := taken.value.macros[header.value.0];
                     && taken.value == s.(macros := s.macros[header.value.0 := definition])
                     && definition.parameters == header.value.1 && |definition.body| == |content|
                     && forall k :: 0 <= k < |content| ==> definition.body[k] == content[k].line)
  {
    BodyIsContent(content);
  }

  lemma {:induction false} BodyIsContent(content: seq<Item>)
    ensures Body(content).Some? <==> |content| <= 4096 && forall k :: 0 <= k < |content| ==> content[k].Plain?
    ensures Body(content).Some? ==>
              |Body(content).value| == |content| && forall k :: 0 <= k < |content| ==> Body(content).value[k] == content[k].line
  {
    if content != [] {
      var before, last := content[..|content| - 1], content[|content| - 1];
      BodyIsContent(before);
      if Body(content).Some? {
        forall k | 0 <= k < |content| ensures content[k].Plain? && Body(content).value[k] == content[k].line {
          if k < |before| { assert content[k] == before[k]; }
        }
      }
    }
  }

  /** A selected definition gives its name, for all later conditions, the value its expression has where it stands, and
      changes no other symbol. */
  lemma DefinitionReachesConditions(line: Macros.SourceLine, parsed: Assembler.Line, s: Selected, name: string, tokens: seq<Token>)
    requires (parsed.operation.Equ? || parsed.operation.Set?) && !Assembler.IsLocalLabel(name)
    requires parsed.operands == [Assembler.Scalar([Symbol(name)]), Assembler.Scalar(tokens)]
    requires SelectNode(Keep(line, Defines(parsed)), s).Some?
    ensures var t := SelectNode(Keep(line, Defines(parsed)), s).value;
            && t.retained == s.retained + [line] && t.macros == s.macros
            && Some(t.global) == Assembler.UpdateScope(parsed.labels, s.global)
            && Assembler.Global(name) in t.values
            && Some(t.values[Assembler.Global(name)]) == EvaluateText(tokens, Assembler.Scoped(s.values, t.global))
            && forall other :: other != Assembler.Global(name) ==>
                 (other in t.values <==> other in s.values) && (other in s.values ==> t.values[other] == s.values[other])
  {
    hide EvaluateText;
  }

  /** A selected line that defines nothing is kept, and only moves the scope to its last global label. */
  lemma PlainLineIsKept(line: Macros.SourceLine, parsed: Assembler.Line, s: Selected)
    requires !parsed.operation.Equ? && !parsed.operation.Set?
    ensures SelectNode(Keep(line, NoDefinition), s) == Some(s.(retained := s.retained + [line]))
    ensures SelectNode(Keep(line, Defines(parsed)), s) ==
            match Assembler.UpdateScope(parsed.labels, s.global)
            case None => None
            case Some(global) => Some(s.(retained := s.retained + [line], global := global))
  {
  }

  // ---- runs over flattened blocks ----

  lemma {:induction false} RunSplit(a: seq<Item>, b: seq<Item>, s: State)
    ensures Run(a + b, s) == match Run(a, s) case None => None case Some(t) => Run(b, t)
    decreases |a|
  {
    hide Step;
    if a == [] {
      assert a + b == b;
    } else {
      assert (a + b)[0] == a[0] && (a + b)[1..] == a[1..] + b;
      if Step(a[0], s).Some? { RunSplit(a[1..], b, Step(a[0], s).value); }
    }
  }

  lemma RunOne(item: Item, s: State)
    ensures Run([item], s) == Step(item, s)
  {
    hide Step;
    assert [item][1..] == [];
  }

  lemma RunFirst(item: Item, rest: seq<Item>, s: State)
    ensures Run([item] + rest, s) == match Step(item, s) case None => None case Some(t) => Run(rest, t)
  {
    hide Step;
    assert ([item] + rest)[0] == item && ([item] + rest)[1..] == rest;
  }

  /** A skipped definition reads its contents only for macro nesting. */
  lemma {:induction false} RunSkipped(content: seq<Item>, depth: nat, s: State)
    requires s.mode == Skipping(depth) && depth > 0 && MacroDepth(content, depth) > 0
    ensures Run(content, s) == Some(s.(mode := Skipping(MacroDepth(content, depth))))
    decreases |content|
  {
    if content != [] {
      var next := if content[0].MacroStart? then depth + 1 else if content[0].MacroEnd? then depth - 1 else depth;
      RunSkipped(content[1..], next, s.(mode := Skipping(next)));
    }
  }

  /** What is collected of a live definition: its body, if every line of it is plain. */
  lemma {:induction false} RunCollected(content: seq<Item>, n: nat, depth: nat, s: State)
    requires s.mode.Collecting? && s.mode.body == [] && n <= |content|
    requires depth > 0 && MacroDepth(content, 1) > 0
    ensures Run(content[..n], s) ==
            match Body(content[..n]) case None => None case Some(body) => Some(s.(mode := s.mode.(body := body)))
  {
    if n == 0 {
    } else {
      RunCollected(content, n - 1, depth, s);
      var before, last := content[..n - 1], content[n - 1];
      assert content[..n] == before + [last];
      RunSplit(before, [last], s);
      assert content[..n][..n - 1] == before;
      if Run(before, s).Some? {
        RunOne(last, Run(before, s).value);
        PlainDepth(content, n - 1);
      }
    }
  }

  /** While only plain lines came, the nesting is one: the next item cannot close the definition. */
  lemma {:induction false} PlainDepth(content: seq<Item>, n: nat)
    requires n < |content| && MacroDepth(content, 1) > 0 && Body(content[..n]).Some?
    ensures !content[n].MacroEnd?
    decreases n
  {
    PlainPrefix(content, n);
    PlainSteps(content, n);
    assert content[n..][0] == content[n];
  }

  lemma {:induction false} PlainPrefix(content: seq<Item>, n: nat)
    requires n <= |content| && Body(content[..n]).Some?
    ensures forall k :: 0 <= k < n ==> content[k].Plain?
    decreases n
  {
    if n > 0 {
      assert content[..n][..n - 1] == content[..n - 1];
      PlainPrefix(content, n - 1);
    }
  }

  lemma {:induction false} PlainSteps(content: seq<Item>, n: nat)
    requires n <= |content| && forall k :: 0 <= k < n ==> content[k].Plain?
    ensures MacroDepth(content, 1) == MacroDepth(content[n..], 1)
    decreases n
  {
    if n > 0 {
      PlainSteps(content, n - 1);
      assert content[n - 1..][1..] == content[n..];
    } else {
      assert content[0..] == content;
    }
  }

  // ---- the machine selects ----

  /** What running a block from a state comes to. */
  function Outcome(block: seq<Node>, s: State): Option<State>
    requires |s.frames| <= MAX_CONDITIONALS
  {
    if !Shallow(block, MAX_CONDITIONALS - |s.frames|) then None
    else if !Active(s.frames) then Some(s)
    else match Select(block, s.selected) case None => None case Some(t) => Some(s.(selected := t))
  }

  function NodeOutcome(node: Node, s: State): Option<State>
    requires |s.frames| <= MAX_CONDITIONALS
  {
    if !ShallowNode(node, MAX_CONDITIONALS - |s.frames|) then None
    else if !Active(s.frames) then Some(s)
    else match SelectNode(node, s.selected) case None => None case Some(t) => Some(s.(selected := t))
  }

  lemma {:induction false} RunBlock(block: seq<Node>, s: State)
    requires Balanced(block) && s.mode == Idle && |s.frames| <= MAX_CONDITIONALS
    ensures Run(Flatten(block), s) == Outcome(block, s)
    decreases block, 0
  {
    hide Step, Active, SelectNode, ShallowNode, FlattenNode, BalancedNode, NodeOutcome;
    if block != [] {
      RunSplit(FlattenNode(block[0]), Flatten(block[1..]), s);
      RunNode(block[0], s);
      if NodeOutcome(block[0], s).Some? {
        NodeFrames(block[0], s);
        RunBlock(block[1..], NodeOutcome(block[0], s).value);
      }
      OutcomeSplit(block, s);
    }
  }

  lemma NodeFrames(node: Node, s: State)
    requires |s.frames| <= MAX_CONDITIONALS && NodeOutcome(node, s).Some?
    ensures NodeOutcome(node, s).value == s.(selected := NodeOutcome(node, s).value.selected)
  {
  }

  lemma OutcomeSplit(block: seq<Node>, s: State)
    requires |s.frames| <= MAX_CONDITIONALS && block != []
    ensures Outcome(block, s) ==
            match NodeOutcome(block[0], s)
            case None => None
            case Some(t) => if |t.frames| <= MAX_CONDITIONALS then Outcome(block[1..], t) else None
  {
    hide Active, SelectNode, ShallowNode;
  }

  lemma {:induction false} RunNode(node: Node, s: State)
    requires BalancedNode(node) && s.mode == Idle && |s.frames| <= MAX_CONDITIONALS
    ensures Run(FlattenNode(node), s) == NodeOutcome(node, s)
    decreases node, 1
  {
    hide Active, Retain;
    match node {
      case Keep(line, definition) => RunOne(Plain(line, definition), s);
      case Define(header, content) => RunDefinition(header, content, s);
      case Conditional(condition, yes, hasElse, no) => RunConditional(condition, yes, hasElse, no, s);
    }
  }

  lemma RunDefinition(header: Option<(string, seq<string>)>, content: seq<Item>, s: State)
    requires MacroDepth(content, 1) == 1 && s.mode == Idle && |s.frames| <= MAX_CONDITIONALS
    ensures Run([MacroStart(header)] + content + [MacroEnd], s) == NodeOutcome(Define(header, content), s)
  {
    hide Active, MacroDepth, Body;
    assert [MacroStart(header)] + content + [MacroEnd] == [MacroStart(header)] + (content + [MacroEnd]);
    RunFirst(MacroStart(header), content + [MacroEnd], s);
    if Step(MacroStart(header), s).Some? {
      var t := Step(MacroStart(header), s).value;
      RunSplit(content, [MacroEnd], t);
      if Active(s.frames) {
        RunCollected(content, |content|, 1, t);
        assert content[..|content|] == content;
      } else {
        RunSkipped(content, 1, t);
      }
      if Run(content, t).Some? { RunOne(MacroEnd, Run(content, t).value); }
    }
  }

  /** Frames with one more on top are active exactly when all of them are. */
  lemma ActiveTop(frames: seq<Frame>, top: Frame)
    ensures Active(frames + [top]) <==> Active(frames) && top.branchActive
    ensures (frames + [top])[..|frames|] == frames && (frames + [top])[|frames|] == top
  {
    var more := frames + [top];
    if Active(more) {
      assert more[|frames|].branchActive;
      forall i | 0 <= i < |frames| ensures frames[i].branchActive { assert more[i].branchActive; }
    }
  }

  lemma {:induction false} RunConditional(condition: seq<Token>, yes: seq<Node>, hasElse: bool, no: seq<Node>, s: State)
    requires Balanced(yes) && Balanced(no) && (!hasElse ==> no == []) && s.mode == Idle && |s.frames| <= MAX_CONDITIONALS
    ensures Run(FlattenNode(Conditional(condition, yes, hasElse, no)), s)
         == NodeOutcome(Conditional(condition, yes, hasElse, no), s)
    decreases Conditional(condition, yes, hasElse, no), 0
  {
    hide Active, Balanced, Flatten, Select, Shallow, EvaluateText, Assembler.Scoped;
    var tail := (if hasElse then [Else] + Flatten(no) else []) + [EndIf];
    assert FlattenNode(Conditional(condition, yes, hasElse, no)) == [If(condition)] + (Flatten(yes) + tail);
    RunFirst(If(condition), Flatten(yes) + tail, s);
    if Step(If(condition), s).Some? {
      var t := Step(If(condition), s).value;
      var frame := t.frames[|s.frames|];
      RunSplit(Flatten(yes), tail, t);
      RunBlock(yes, t);
      ActiveTop(s.frames, frame);
      EmptyBlock(MAX_CONDITIONALS - |t.frames|, s.selected);
      if Run(Flatten(yes), t).Some? {
        var u := Run(Flatten(yes), t).value;
        if hasElse {
          RunElse(no, u, s.frames, frame);
          ActiveTop(s.frames, frame.(elseSeen := true, branchActive := frame.parentActive && !frame.conditionTrue));
        } else {
          RunOne(EndIf, u);
        }
      }
    }
  }

  lemma EmptyBlock(depth: nat, s: Selected)
    ensures Shallow([], depth) && Select([], s) == Some(s) && Flatten([]) == []
  {
  }

  lemma {:induction false} RunElse(no: seq<Node>, u: State, frames: seq<Frame>, frame: Frame)
    requires Balanced(no) && u.mode == Idle && u.frames == frames + [frame] && |u.frames| <= MAX_CONDITIONALS && !frame.elseSeen
    ensures var top := frame.(elseSeen := true, branchActive := frame.parentActive && !frame.conditionTrue);
            Run([Else] + Flatten(no) + [EndIf], u) ==
            match Outcome(no, u.(frames := frames + [top])) case None => None case Some(v) => Some(v.(frames := frames))
    decreases no, 1
  {
    hide Active, Balanced, Flatten, Select, Shallow;
    var top := frame.(elseSeen := true, branchActive := frame.parentActive && !frame.conditionTrue);
    var v := u.(frames := frames + [top]);
    assert [Else] + Flatten(no) + [EndIf] == [Else] + (Flatten(no) + [EndIf]);
    RunFirst(Else, Flatten(no) + [EndIf], u);
    ActiveTop(frames, frame);
    ActiveTop(frames, top);
    assert Step(Else, u) == Some(v);
    RunSplit(Flatten(no), [EndIf], v);
    RunBlock(no, v);
    if Run(Flatten(no), v).Some? { RunOne(EndIf, Run(Flatten(no), v).value); }
  }

  /** In a dead branch the machine passes over any balanced block, whatever its conditions, definitions and
      lines are: nothing is evaluated, kept or defined. */
  lemma DeadBlockIsSkipped(block: seq<Node>, s: State)
    requires Balanced(block) && s.mode == Idle && |s.frames| <= MAX_CONDITIONALS
    requires !Active(s.frames) && Shallow(block, MAX_CONDITIONALS - |s.frames|)
    ensures Run(Flatten(block), s) == Some(s)
  {
    RunBlock(block, s);
  }

  // ---- accepted sources are nested ----

  /** A conditional that is still open: the block before it, and its first branch when that is complete. */
  datatype Open = Open(before: seq<Node>, condition: seq<Token>, inElse: bool, yes: seq<Node>)

  /** What has been read so far: open conditionals, the block being read, and an open macro definition. */
  datatype Reading = Reading(outer: seq<Open>, current: seq<Node>,
                             definition: Option<(Option<(string, seq<string>)>, seq<Item>)>)

  function FlattenOpen(open: Open): seq<Item>
  {
    Flatten(open.before) + [If(open.condition)] + (if open.inElse then Flatten(open.yes) + [Else] else [])
  }

  function FlattenOuter(outer: seq<Open>): seq<Item>
  {
    if outer == [] then [] else FlattenOuter(outer[..|outer| - 1]) + FlattenOpen(outer[|outer| - 1])
  }

  function FlattenReading(r: Reading): seq<Item>
  {
    FlattenOuter(r.outer) + Flatten(r.current)
    + (match r.definition case None => [] case Some((header, content)) => [MacroStart(header)] + content)
  }

  ghost predicate Reads(r: Reading, s: State)
  {
    && |r.outer| == |s.frames|
    && (forall i :: 0 <= i < |r.outer| ==>
          r.outer[i].inElse == s.frames[i].elseSeen && Balanced(r.outer[i].before) && Balanced(r.outer[i].yes))
    && Balanced(r.current)
    && (match s.mode
        case Idle => r.definition == None
        case Collecting(_, _, _) => r.definition.Some? && MacroDepth(r.definition.value.1, 1) == 1
        case Skipping(depth) => depth > 0 && r.definition.Some? && MacroDepth(r.definition.value.1, 1) == depth)
  }

  lemma {:induction false} FlattenAppend(block: seq<Node>, node: Node)
    ensures Flatten(block + [node]) == Flatten(block) + FlattenNode(node)
    decreases |block|
  {
    hide FlattenNode;
    if block == [] {
      assert (block + [node])[1..] == [];
      assert Flatten([node]) == FlattenNode(node) + Flatten([node][1..]);
    } else {
      assert (block + [node])[1..] == block[1..] + [node];
      FlattenAppend(block[1..], node);
    }
  }

  lemma BalancedAppend(block: seq<Node>, node: Node)
    requires Balanced(block) && BalancedNode(node)
    ensures Balanced(block + [node])
  {
    hide BalancedNode;
  }

  lemma {:induction false} DepthAppend(content: seq<Item>, item: Item, depth: nat)
    requires depth > 0 && MacroDepth(content, depth) > 0
    ensures MacroDepth(content + [item], depth) ==
            var d := MacroDepth(content, depth);
            if item.MacroStart? then d + 1 else if item.MacroEnd? then d - 1 else d
    decreases |content|
  {
    if content == [] {
      assert (content + [item])[1..] == [];
    } else {
      var next := if content[0].MacroStart? then depth + 1 else if content[0].MacroEnd? then depth - 1 else depth;
      assert (content + [item])[1..] == content[1..] + [item];
      DepthAppend(content[1..], item, next);
    }
  }

  /** Reading one more accepted item. */
  lemma ReadItem(r: Reading, item: Item, s: State) returns (next: Reading)
    requires Reads(r, s) && Step(item, s).Some?
    ensures Reads(next, Step(item, s).value) && FlattenReading(next) == FlattenReading(r) + [item]
  {
    hide Balanced, Active, Holds, OpenMacro, Retain, MacroDepth;
    if s.mode != Idle {
      next := ReadInDefinition(r, item, s);
    } else {
      match item {
        case Plain(line, definition) => next := ReadNode(r, Keep(line, definition), s);
        case MacroStart(header) =>
          next := r.(definition := Some((header, [])));
          EmptyContent();
        case If(condition) => next := ReadIf(r, condition, s);
        case Else => next := ReadElse(r, s);
        case EndIf => next := ReadEndIf(r, s);
      }
    }
  }

  lemma EmptyContent()
    ensures MacroDepth([], 1) == 1
  {
  }

  lemma ReadNode(r: Reading, node: Node, s: State) returns (next: Reading)
    requires Reads(r, s) && s.mode == Idle && BalancedNode(node)
    ensures Reads(next, s) && next == Reading(r.outer, r.current + [node], None)
    ensures FlattenReading(next) == FlattenReading(r) + FlattenNode(node)
  {
    hide Balanced, BalancedNode, FlattenNode;
    next := Reading(r.outer, r.current + [node], None);
    FlattenAppend(r.current, node);
    BalancedAppend(r.current, node);
  }

  lemma ReadInDefinition(r: Reading, item: Item, s: State) returns (next: Reading)
    requires Reads(r, s) && s.mode != Idle && Step(item, s).Some?
    ensures Reads(next, Step(item, s).value) && FlattenReading(next) == FlattenReading(r) + [item]
  {
    hide Balanced, MacroDepth;
    var (header, content) := r.definition.value;
    DepthAppend(content, item, 1);
    if Step(item, s).value.mode == Idle {
      var node := Define(header, content);
      assert item == MacroEnd;
      next := Reading(r.outer, r.current + [node], None);
      FlattenAppend(r.current, node);
      BalancedAppend(r.current, node);
      assert FlattenReading(r) + [item] == FlattenOuter(r.outer) + Flatten(r.current) + ([MacroStart(header)] + content + [item]);
    } else {
      next := r.(definition := Some((header, content + [item])));
      assert [MacroStart(header)] + (content + [item]) == [MacroStart(header)] + content + [item];
    }
  }

  lemma ReadIf(r: Reading, condition: seq<Token>, s: State) returns (next: Reading)
    requires Reads(r, s) && s.mode == Idle && Step(If(condition), s).Some?
    ensures Reads(next, Step(If(condition), s).value) && FlattenReading(next) == FlattenReading(r) + [If(condition)]
  {
    hide Balanced, Active, Holds, Flatten, FlattenReading, MacroDepth;
    var open := Open(r.current, condition, false, []);
    next := Reading(r.outer + [open], [], None);
    NothingBalanced();
    FlattenIf(r, open);
  }

  lemma FlattenIf(r: Reading, open: Open)
    requires r.definition == None && open == Open(r.current, open.condition, false, [])
    ensures FlattenReading(Reading(r.outer + [open], [], None)) == FlattenReading(r) + [If(open.condition)]
  {
    hide Flatten;
    EmptyBlock(0, START.selected);
    assert (r.outer + [open])[..|r.outer|] == r.outer;
  }

  lemma NothingBalanced()
    ensures Balanced([])
  {
  }

  lemma ReadElse(r: Reading, s: State) returns (next: Reading)
    requires Reads(r, s) && s.mode == Idle && Step(Else, s).Some?
    ensures Reads(next, Step(Else, s).value) && FlattenReading(next) == FlattenReading(r) + [Else]
  {
    hide Balanced;
    var n := |r.outer| - 1;
    var last := r.outer[n];
    var open := last.(inElse := true, yes := r.current);
    next := Reading(r.outer[..n] + [open], [], None);
    NothingBalanced();
    EmptyBlock(0, s.selected);
    assert (r.outer[..n] + [open])[..n] == r.outer[..n];
    assert FlattenOuter(r.outer) == FlattenOuter(r.outer[..n]) + FlattenOpen(last);
    assert FlattenOpen(open) == FlattenOpen(last) + Flatten(r.current) + [Else];
  }

  lemma ReadEndIf(r: Reading, s: State) returns (next: Reading)
    requires Reads(r, s) && s.mode == Idle && Step(EndIf, s).Some?
    ensures Reads(next, Step(EndIf, s).value) && FlattenReading(next) == FlattenReading(r) + [EndIf]
  {
    hide Balanced, Flatten, FlattenOpen;
    var n := |r.outer| - 1;
    var last := r.outer[n];
    var node := Close(last, r.current);
    next := Reading(r.outer[..n], last.before + [node], None);
    NothingBalanced();
    assert BalancedNode(node);
    BalancedAppend(last.before, node);
    CloseOpen(last, r.current);
    assert FlattenOuter(r.outer) == FlattenOuter(r.outer[..n]) + FlattenOpen(last);
  }

  /** The node an `.endif` completes. */
  function Close(open: Open, current: seq<Node>): Node
  {
    if open.inElse then Conditional(open.condition, open.yes, true, current) else Conditional(open.condition, current, false, [])
  }

  lemma CloseOpen(open: Open, current: seq<Node>)
    ensures Flatten(open.before + [Close(open, current)]) == FlattenOpen(open) + Flatten(current) + [EndIf]
  {
    hide Flatten;
    FlattenAppend(open.before, Close(open, current));
  }

  lemma {:induction false} ReadAll(r: Reading, items: seq<Item>, s: State) returns (next: Reading)
    requires Reads(r, s) && Run(items, s).Some?
    ensures Reads(next, Run(items, s).value) && FlattenReading(next) == FlattenReading(r) + items
    decreases |items|
  {
    hide Reads, FlattenReading, Step;
    if items == [] {
      next := r;
    } else {
      var one := ReadItem(r, items[0], s);
      next := ReadAll(one, items[1..], Step(items[0], s).value);
      assert [items[0]] + items[1..] == items;
    }
  }

  /** The block tree is the source, properly nested and at most 32 conditionals deep. */
  ghost predicate IsTree(block: seq<Node>, items: seq<Item>)
  {
    Balanced(block) && Flatten(block) == items && Shallow(block, 32)
  }

  lemma TreeSelects(block: seq<Node>)
    requires Balanced(block)
    ensures Preprocess(Flatten(block)) == if Shallow(block, 32) then Select(block, START.selected) else None
  {
    RunBlock(block, START);
  }

  /** A source is accepted exactly when it is the flattened form of a balanced block tree, no deeper than the
      limit, whose selection succeeds; the result is what the tree selects. */
  lemma PreprocessIsSelection(items: seq<Item>, result: Selected)
    ensures Preprocess(items) == Some(result)
       <==> exists block :: IsTree(block, items) && Select(block, START.selected) == Some(result)
  {
    hide Balanced, Flatten, Select, Shallow, Run;
    if Preprocess(items) == Some(result) {
      NothingBalanced();
      EmptyBlock(0, START.selected);
      var r := ReadAll(Reading([], [], None), items, START);
      assert FlattenReading(Reading([], [], None)) == [];
      assert FlattenReading(r) == Flatten(r.current) == items;
      TreeSelects(r.current);
      assert IsTree(r.current, items);
    }
    forall block | IsTree(block, items) && Select(block, START.selected) == Some(result)
      ensures Preprocess(items) == Some(result)
    {
      TreeSelects(block);
    }
  }
}
