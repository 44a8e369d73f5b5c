/** The two passes as the loops over mutable tables that they are; each method
    leaves exactly the state its specification function gives. */
module AssemblerPasses {
  import opened Bytes
  import opened Options
  import opened Expressions
  import opened Assembler

  class FirstPass {
    var pc: nat
    var symbols: Table
    var values: Table
    var constants: Table
    var equValues: Table
    var equNames: set<Key>
    var global: Option<string>
    var sections: seq<SectionState>

    function State(): PassOne
      reads this
    {
      PassOne(pc, symbols, values, constants, equValues, equNames, global, sections)
    }

    constructor ()
      ensures State() == START_ONE
    {
      pc, symbols, values, constants := 0, map[], map[], map[];
      equValues, equNames, global, sections := map[], {}, None, DEFAULT_SECTIONS;
    }

    method DefineAll(labels: seq<string>) returns (ok: bool)
      modifies this
      ensures ok == DefineLabels(labels, old(State())).Some?
      ensures ok ==> State() == DefineLabels(labels, old(State())).value
    {
      hide IsLocalLabel;
      var i := 0;
      while i < |labels|
        invariant 0 <= i <= |labels|
        invariant DefineLabels(labels, old(State())) == DefineLabels(labels[i..], State())
      {
        var head := labels[i];
        var key := CanonicalName(head, global);
        assert labels[i..][0] == head && labels[i..][1..] == labels[i + 1..];
        if key.None? { return false; }
        if key.value in values { return false; }
        if !IsLocalLabel(head) { global := Some(head); }
        symbols := symbols[key.value := pc];
        values := values[key.value := pc];
        i := i + 1;
      }
      return true;
    }

    method Define(line: Line) returns (ok: bool)
      modifies this
      ensures ok == DefineAbsolute(line, old(State())).Some?
      ensures ok ==> State() == DefineAbsolute(line, old(State())).value
    {
      hide EvaluateOperand, Scoped, CanonicalName;
      if !line.operation.Equ? && !line.operation.Set? { return true; }
      var parts := DefinitionParts(line);
      if parts.None? { return false; }
      var key := CanonicalName(parts.value.0, global);
      if key.None? || key.value in symbols { return false; }
      if line.operation.Equ? {
        if key.value in values { return false; }
      } else {
        if key.value in equNames { return false; }
      }
      var value := EvaluateOperand(parts.value.1, Scoped(values, global));
      if value.None? { return false; }
      values := values[key.value := value.value];
      constants := constants[key.value := value.value];
      if line.operation.Equ? {
        equValues := equValues[key.value := value.value];
        equNames := equNames + {key.value};
      }
      return true;
    }

    method Line(line: Line) returns (ok: bool)
      modifies this
      ensures ok == StepOne(line, old(State())).Some?
      ensures ok ==> State() == StepOne(line, old(State())).value
    {
      hide DefineLabels, DefineAbsolute, LineSize, Scoped, SelectSection;
      if line.operation.Section? {
        if line.operation.spec.None? { return false; }
        var selected := SelectSection(sections, line.operation.spec.value.0, line.operation.spec.value.1);
        if selected.None? { return false; }
        sections := selected.value.0;
      }
      assert DeclareSection(line, old(State())) == Some(State());
      ok := DefineAll(line.labels);
      if !ok { return; }
      ok := Define(line);
      if !ok { return; }
      if !line.operation.NoOperation? {
        var size := LineSize(line, pc, Scoped(values, global));
        if size.None? || pc + size.value >= 0x1_0000_0000_0000_0000 { return false; }
        pc := pc + size.value;
      }
    }

    method Run(lines: seq<Line>) returns (ok: bool)
      requires State() == START_ONE
      modifies this
      ensures ok == AfterOne(lines, |lines|).Some?
      ensures ok ==> State() == AfterOne(lines, |lines|).value
    {
      hide StepOne;
      var i := 0;
      while i < |lines|
        invariant 0 <= i <= |lines|
        invariant AfterOne(lines, i) == Some(State())
      {
        ok := Line(lines[i]);
        if !ok {
          AssemblerFails(lines, i + 1);
          return;
        }
        i := i + 1;
      }
      return true;
    }
  }

  lemma {:induction false} AssemblerFails(lines: seq<Line>, n: nat)
    requires n <= |lines| && AfterOne(lines, n).None?
    ensures AfterOne(lines, |lines|).None?
    decreases |lines| - n
  {
    if n < |lines| { AssemblerFails(lines, n + 1); }
  }

  lemma {:induction false} EmissionFails(lines: seq<Line>, n: nat, final: PassOne, target: Target)
    requires n <= |lines| && AfterTwo(lines, n, final, target).None?
    ensures AfterTwo(lines, |lines|, final, target).None?
    decreases |lines| - n
  {
    if n < |lines| { EmissionFails(lines, n + 1, final, target); }
  }

  class SecondPass {
    var pc: nat
    var global: Option<string>
    var emit: Table
    var text: seq<Byte>
    var listing: seq<Entry>
    var layout: Layout

    function State(): PassTwo
      reads this
    {
      PassTwo(pc, global, emit, text, listing, layout)
    }

    constructor (final: PassOne)
      ensures State() == StartTwo(final)
    {
      pc, global, emit, text := 0, None, final.symbols + final.equValues, [];
      listing, layout := [], Opened(RawLayout(DEFAULT_SECTIONS, 0), 0);
    }

    method UpdateScope(labels: seq<string>) returns (ok: bool)
      modifies `global
      ensures ok == Assembler.UpdateScope(labels, old(global)).Some?
      ensures ok ==> Some(global) == Assembler.UpdateScope(labels, old(global))
    {
      hide IsLocalLabel;
      var i := 0;
      while i < |labels|
        invariant 0 <= i <= |labels|
        invariant Assembler.UpdateScope(labels, old(global)) == Assembler.UpdateScope(labels[i..], global)
      {
        var head := labels[i];
        assert labels[i..][0] == head && labels[i..][1..] == labels[i + 1..];
        if IsLocalLabel(head) {
          if global.None? { return false; }
        } else {
          global := Some(head);
        }
        i := i + 1;
      }
      return true;
    }

    method List(bytes: seq<Byte>)
      modifies `listing
      ensures State() == Listed(old(State()), bytes)
    {
      listing := listing + [Entry(pc, CurrentSection(layout).name, bytes)];
    }

    method Line(line: Line, final: PassOne, target: Target) returns (ok: bool)
      modifies this
      ensures ok == StepTwo(line, old(State()), final, target).Some?
      ensures ok ==> State() == StepTwo(line, old(State()), final, target).value
    {
      hide ApplySet, ResolveControlLabel, AssembleParsed, Scoped, SelectSection, Assembler.UpdateScope, Opened, Filled, RequiredAlignment;
      ok := UpdateScope(line.labels);
      if !ok { return; }
      if line.operation.Section? {
        if line.operation.spec.None? { return false; }
        var selected := SelectSection(layout.table, line.operation.spec.value.0, line.operation.spec.value.1);
        if selected.None? { return false; }
        layout := Opened(RawLayout(selected.value.0, selected.value.1), pc);
        List([]);
        return true;
      }
      layout := Opened(layout, pc);
      if line.operation.NoOperation? {
        List([]);
      } else if line.operation.Set? {
        var table := ApplySet(line, global, final, emit);
        if table.None? { return false; }
        emit := table.value;
        List([]);
      } else if line.operation.Equ? {
        List([]);
      } else {
        var scoped := Scoped(emit, global);
        var resolved := ResolveControlLabel(line, pc, scoped);
        if resolved.None? { return false; }
        var bytes := AssembleParsed(resolved.value, pc, scoped, target);
        if bytes.None? { return false; }
        List(bytes.value);
        layout := Filled(layout, bytes.value, RequiredAlignment(resolved.value, scoped));
        text := text + bytes.value;
        pc := pc + |bytes.value|;
      }
      return true;
    }

    method Run(lines: seq<Line>, final: PassOne, target: Target) returns (ok: bool)
      requires State() == StartTwo(final)
      modifies this
      ensures ok == AfterTwo(lines, |lines|, final, target).Some?
      ensures ok ==> State() == AfterTwo(lines, |lines|, final, target).value
    {
      hide StepTwo;
      var i := 0;
      while i < |lines|
        invariant 0 <= i <= |lines|
        invariant AfterTwo(lines, i, final, target) == Some(State())
      {
        ok := Line(lines[i], final, target);
        if !ok {
          EmissionFails(lines, i + 1, final, target);
          return;
        }
        i := i + 1;
      }
      return true;
    }
  }

  method Assemble(lines: seq<Line>, target: Target) returns (image: Option<Image>)
    ensures image == AssembleProgram(lines, target)
  {
    hide AfterOne, AfterTwo;
    var first := new FirstPass();
    var ok := first.Run(lines);
    if !ok { return None; }
    var second := new SecondPass(first.State());
    ok := second.Run(lines, first.State(), target);
    if !ok { return None; }
    var entry := if Global("_start") in first.symbols then first.symbols[Global("_start")] else 0;
    return Some(Image(first.symbols, first.constants, entry, second.text, second.listing,
                      SectionImages(second.layout.table, second.pc)));
  }
}
