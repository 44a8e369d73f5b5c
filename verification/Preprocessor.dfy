/** The source loop of the preprocessor over its own variables, followed by macro expansion. */
module Preprocessor {
  import opened Options
  import opened Expressions
  import opened Conditionals
  import Assembler
  import Macros

  class Reader {
    var macros: Macros.MacroTable
    var active: Option<(string, seq<string>, seq<Macros.SourceLine>)>
    var skippedDepth: nat
    var frames: seq<Frame>
    var values: Table
    var equValues: Table
    var equNames: set<Assembler.Key>
    var global: Option<string>
    var retained: seq<Macros.SourceLine>

    /** A macro is never both collected and skipped. */
    ghost predicate Valid()
      reads this
    {
      active.None? || skippedDepth == 0
    }

    function SelectedSoFar(): Selected
      reads this
    {
      Selected(retained, macros, values, equValues, equNames, global)
    }

    function CurrentMode(): Mode
      reads this
    {
      if skippedDepth != 0 then Skipping(skippedDepth)
      else match active case None => Idle case Some((name, parameters, body)) => Collecting(name, parameters, body)
    }

    function Current(): State
      reads this
    {
      State(frames, CurrentMode(), SelectedSoFar())
    }

    constructor ()
      ensures Valid() && Current() == START
    {
      macros, active, skippedDepth, frames := map[], None, 0, [];
      values, equValues, equNames, global, retained := map[], map[], {}, None, [];
    }

    /** Keeps a selected line, after applying its definitions to the symbols conditions see. */
    method Keep(line: Macros.SourceLine, definition: Definition) returns (ok: bool)
      modifies `values, `equValues, `equNames, `global, `retained
      ensures ok == Retain(line, definition, old(SelectedSoFar())).Some?
      ensures ok ==> SelectedSoFar() == Retain(line, definition, old(SelectedSoFar())).value
    {
      hide Assembler.UpdateScope, Assembler.DefineAbsolute;
      match definition {
        case NoDefinition =>
        case Unparsable => return false;
        case Defines(parsed) =>
          var scope := Assembler.UpdateScope(parsed.labels, global);
          if scope.None? { return false; }
          global := scope.value;
          var tables := Assembler.DefineAbsolute(parsed, Tables(SelectedSoFar()));
          if tables.None? { return false; }
          values, equValues, equNames := tables.value.values, tables.value.equValues, tables.value.equNames;
      }
      retained := retained + [line];
      return true;
    }

    /** One step of the loop; the new state is the machine's. */
    method Read(item: Item) returns (ok: bool)
      requires Valid()
      modifies this
      ensures ok == Step(item, old(Current())).Some?
      ensures ok ==> Valid() && Current() == Step(item, old(Current())).value
    {
      hide Active, Holds, OpenMacro, Retain;
      if skippedDepth != 0 {
        if item.MacroStart? {
          skippedDepth := skippedDepth + 1;
        } else if item.MacroEnd? {
          skippedDepth := skippedDepth - 1;
        }
        return true;
      }
      if active.Some? {
        var (name, parameters, body) := active.value;
        if item.MacroEnd? {
          macros := macros[name := Macros.Macro(parameters, body)];
          active := None;
          return true;
        }
        if !item.Plain? || |body| >= MAX_BODY { return false; }
        active := Some((name, parameters, body + [item.line]));
        return true;
      }
      match item {
        case If(condition) => ok := EnterIf(condition);
        case Else =>
          if frames == [] { return false; }
          var last := frames[|frames| - 1];
          if last.elseSeen { return false; }
          frames := frames[..|frames| - 1] + [last.(elseSeen := true, branchActive := last.parentActive && !last.conditionTrue)];
          return true;
        case EndIf =>
          if frames == [] { return false; }
          frames := frames[..|frames| - 1];
          return true;
        case BadConditional => return false;
        case MacroStart(header) =>
          if !Active(frames) {
            skippedDepth := 1;
            return true;
          }
          var signature := OpenMacro(header, macros);
          if signature.None? { return false; }
          active := Some((signature.value.0, signature.value.1, []));
          return true;
        case MacroEnd => return false;
        case Plain(line, definition) =>
          if !Active(frames) { return true; }
          ok := Keep(line, definition);
      }
    }

    /** Opens a conditional: its condition is looked at only when every enclosing branch is live. */
    method EnterIf(condition: seq<Token>) returns (ok: bool)
      requires CurrentMode() == Idle
      modifies `frames
      ensures ok == Step(If(condition), old(Current())).Some?
      ensures ok ==> Current() == Step(If(condition), old(Current())).value
    {
      hide Active, Holds;
      if |frames| >= MAX_CONDITIONALS { return false; }
      var parent := Active(frames);
      var truth := false;
      if parent {
        var holds := Holds(condition, SelectedSoFar());
        if holds.None? { return false; }
        truth := holds.value;
      }
      frames := frames + [Frame(parent, truth, parent && truth, false)];
      return true;
    }
  }

  /** The whole preprocessor on the lines of a source. */
  function Expanded(items: seq<Item>, syntax: Macros.Syntax): Option<seq<Macros.SourceLine>>
  {
    match Preprocess(items)
    case None => None
    case Some(selected) =>
      var inlined := Macros.InlineAll(selected.retained, selected.macros, |selected.retained|, syntax);
      if inlined.Some? && |inlined.value| <= 65_536 then inlined else None
  }

  method ExpandMacros(items: seq<Item>, syntax: Macros.Syntax) returns (result: Option<seq<Macros.SourceLine>>)
    ensures result == Expanded(items, syntax)
  {
    hide Step, Macros.InlineAll;
    var reader := new Reader();
    var i := 0;
    while i < |items|
      invariant 0 <= i <= |items| && reader.Valid()
      invariant Run(items, START) == Run(items[i..], reader.Current())
    {
      assert items[i..][0] == items[i] && items[i..][1..] == items[i + 1..];
      var ok := reader.Read(items[i]);
      if !ok { return None; }
      i := i + 1;
    }
    assert items[i..] == [];
    if reader.active.Some? || reader.skippedDepth != 0 || reader.frames != [] { return None; }
    var expander := new Macros.Expander(reader.macros, syntax);
    var ok := expander.ExpandAll(reader.retained);
    return if ok then Some(expander.output) else None;
  }

  /** The output of the preprocessor holds no invocation of a macro the source defined in a live branch. */
  lemma ExpandedInvokesNothing(items: seq<Item>, syntax: Macros.Syntax)
    requires Expanded(items, syntax).Some?
    ensures Macros.InvokesNothing(Expanded(items, syntax).value, Preprocess(items).value.macros, syntax)
    ensures |Expanded(items, syntax).value| <= 65_536
  {
    var selected := Preprocess(items).value;
    Macros.AllInvokeNothing(selected.retained, selected.macros, |selected.retained|, syntax);
  }
}
