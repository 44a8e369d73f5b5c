/** Macro expansion: a line that invokes a defined macro is replaced by the macro's
    body with the arguments substituted, again and again. How an invocation is read
    from a line and how arguments are substituted into one are parameters. */
module Macros {
  import opened Options

  datatype SourceLine = SourceLine(text: string, number: nat)

  datatype Macro = Macro(parameters: seq<string>, body: seq<SourceLine>)

  type MacroTable = map<string, Macro>

  /** What the expander takes from the text of a line. */
  datatype Syntax = Syntax(
    invocation: string -> Option<(string, seq<string>)>,      // lower-case name, arguments
    substitute: (string, seq<string>, seq<string>) -> string) // body line, parameters, arguments

  const MAX_DEPTH := 32
  const MAX_LINES := 65_536

  /** The macro a line invokes, if it invokes a defined one. */
  function Invoked(line: SourceLine, macros: MacroTable, syntax: Syntax): Option<string>
  {
    match syntax.invocation(line.text)
    case None => None
    case Some((name, _)) => if name in macros then Some(name) else None
  }

  function Instance(line: SourceLine, definition: Macro, k: nat, syntax: Syntax): SourceLine
    requires k < |definition.body| && syntax.invocation(line.text).Some?
  {
    SourceLine(syntax.substitute(definition.body[k].text, definition.parameters, syntax.invocation(line.text).value.1),
               definition.body[k].number)
  }

  // ---- inlining ----

  /** A line inlined below the calls in `path`, outermost first; None where the expander refuses. */
  function Inline(line: SourceLine, macros: MacroTable, path: seq<string>, syntax: Syntax): Option<seq<SourceLine>>
    decreases MAX_DEPTH - |path|, 1, 0
  {
    match Invoked(line, macros, syntax)
    case None => Some([line])
    case Some(name) =>
      if name in path || |path| >= MAX_DEPTH then None
      else if |syntax.invocation(line.text).value.1| != |macros[name].parameters| then None
      else InlineBody(line, macros, name, |macros[name].body|, path + [name], syntax)
  }

  /** The first n body lines of the macro a line invokes, inlined in order. */
  function InlineBody(line: SourceLine, macros: MacroTable, name: string, n: nat, path: seq<string>, syntax: Syntax): Option<seq<SourceLine>>
    requires name in macros && n <= |macros[name].body| && syntax.invocation(line.text).Some?
    decreases MAX_DEPTH - |path|, 2, n
  {
    if n == 0 then Some([])
    else match InlineBody(line, macros, name, n - 1, path, syntax)
      case None => None
      case Some(before) =>
        match Inline(Instance(line, macros[name], n - 1, syntax), macros, path, syntax)
        case None => None
        case Some(lines) => Some(before + lines)
  }

  /** Inlining with no check but the number of parameters, to a given depth of calls. */
  function Naive(line: SourceLine, macros: MacroTable, fuel: nat, syntax: Syntax): Option<seq<SourceLine>>
    decreases fuel, 1, 0
  {
    match Invoked(line, macros, syntax)
    case None => Some([line])
    case Some(name) =>
      if fuel == 0 || |syntax.invocation(line.text).value.1| != |macros[name].parameters| then None
      else NaiveBody(line, macros, name, |macros[name].body|, fuel - 1, syntax)
  }

  function NaiveBody(line: SourceLine, macros: MacroTable, name: string, n: nat, fuel: nat, syntax: Syntax): Option<seq<SourceLine>>
    requires name in macros && n <= |macros[name].body| && syntax.invocation(line.text).Some?
    decreases fuel, 2, n
  {
    if n == 0 then Some([])
    else match NaiveBody(line, macros, name, n - 1, fuel, syntax)
      case None => None
      case Some(before) =>
        var definition := macros[name];
        var text := syntax.substitute(definition.body[n - 1].text, definition.parameters, syntax.invocation(line.text).value.1);
        match Naive(SourceLine(text, definition.body[n - 1].number), macros, fuel, syntax)
        case None => None
        case Some(lines) => Some(before + lines)
  }

  /** What the expander produces is what unchecked inlining produces, however deep that may go. */
  lemma {:induction false} InlineIsNaive(line: SourceLine, macros: MacroTable, path: seq<string>, fuel: nat, syntax: Syntax)
    requires Inline(line, macros, path, syntax).Some? && fuel >= MAX_DEPTH - |path|
    ensures Naive(line, macros, fuel, syntax) == Inline(line, macros, path, syntax)
    decreases MAX_DEPTH - |path|, 1, 0
  {
    if Invoked(line, macros, syntax).Some? {
      var name := Invoked(line, macros, syntax).value;
      InlineBodyIsNaive(line, macros, name, |macros[name].body|, path + [name], fuel - 1, syntax);
    }
  }

  lemma {:induction false} InlineBodyIsNaive(line: SourceLine, macros: MacroTable, name: string, n: nat, path: seq<string>,
                                             fuel: nat, syntax: Syntax)
    requires name in macros && n <= |macros[name].body| && syntax.invocation(line.text).Some?
    requires InlineBody(line, macros, name, n, path, syntax).Some? && fuel >= MAX_DEPTH - |path|
    ensures NaiveBody(line, macros, name, n, fuel, syntax) == InlineBody(line, macros, name, n, path, syntax)
    decreases MAX_DEPTH - |path|, 2, n
  {
    hide Inline, Naive;
    if n > 0 {
      InlineBodyIsNaive(line, macros, name, n - 1, path, fuel, syntax);
      InlineIsNaive(Instance(line, macros[name], n - 1, syntax), macros, path, fuel, syntax);
    }
  }

  // ---- what is refused ----

  /** Below the calls in `path` a chain of at most `fuel` more calls comes back to a macro it is inside of. */
  predicate Recurses(line: SourceLine, macros: MacroTable, path: seq<string>, fuel: nat, syntax: Syntax)
    decreases fuel, 1, 0
  {
    match Invoked(line, macros, syntax)
    case None => false
    case Some(name) => name in path || (fuel > 0 && BodyRecurses(line, macros, name, |macros[name].body|, path + [name], fuel - 1, syntax))
  }

  predicate BodyRecurses(line: SourceLine, macros: MacroTable, name: string, n: nat, path: seq<string>, fuel: nat, syntax: Syntax)
    requires name in macros && n <= |macros[name].body| && syntax.invocation(line.text).Some?
    decreases fuel, 2, n
  {
    n > 0
    && (|| BodyRecurses(line, macros, name, n - 1, path, fuel, syntax)
        || var definition := macros[name];
           var text := syntax.substitute(definition.body[n - 1].text, definition.parameters, syntax.invocation(line.text).value.1);
           Recurses(SourceLine(text, definition.body[n - 1].number), macros, path, fuel, syntax))
  }

  /** The expander accepts a line exactly when unchecked inlining ends within 32 nested calls and no chain of calls comes
      back to a macro it is inside of. */
  lemma {:induction false} AcceptedIff(line: SourceLine, macros: MacroTable, path: seq<string>, syntax: Syntax)
    requires |path| <= 32
    ensures Inline(line, macros, path, syntax).Some?
       <==> Naive(line, macros, 32 - |path|, syntax).Some? && !Recurses(line, macros, path, 32 - |path|, syntax)
    decreases MAX_DEPTH - |path|, 1, 0
  {
    if Inline(line, macros, path, syntax).Some? { InlineIsNaive(line, macros, path, 32 - |path|, syntax); }
    if Invoked(line, macros, syntax).Some? && |path| < 32 {
      var name := Invoked(line, macros, syntax).value;
      if name !in path && |syntax.invocation(line.text).value.1| == |macros[name].parameters| {
        BodyAcceptedIff(line, macros, name, |macros[name].body|, path + [name], syntax);
      }
    }
  }

  lemma {:induction false} BodyAcceptedIff(line: SourceLine, macros: MacroTable, name: string, n: nat, path: seq<string>, syntax: Syntax)
    requires name in macros && n <= |macros[name].body| && syntax.invocation(line.text).Some? && |path| <= 32
    ensures InlineBody(line, macros, name, n, path, syntax).Some?
       <==> NaiveBody(line, macros, name, n, 32 - |path|, syntax).Some? && !BodyRecurses(line, macros, name, n, path, 32 - |path|, syntax)
    decreases MAX_DEPTH - |path|, 2, n
  {
    hide Inline, Naive, Recurses;
    if n > 0 {
      BodyAcceptedIff(line, macros, name, n - 1, path, syntax);
      AcceptedIff(Instance(line, macros[name], n - 1, syntax), macros, path, syntax);
    }
  }

  // ---- what an expansion is ----

  function Concatenated(pieces: seq<seq<SourceLine>>): seq<SourceLine>
  {
    if pieces == [] then [] else Concatenated(pieces[..|pieces| - 1]) + pieces[|pieces| - 1]
  }

  /** The k-th body line of a macro, with the arguments in place of the parameters, under its own line number. */
  predicate IsSubstituted(piece: SourceLine, definition: Macro, k: nat, arguments: seq<string>, syntax: Syntax)
    requires k < |definition.body|
  {
    piece.text == syntax.substitute(definition.body[k].text, definition.parameters, arguments) && piece.number == definition.body[k].number
  }

  /** A line that invokes a macro expands, if it expands at all, to the expansions of the macro's substituted body lines,
      one after the other in body order. */
  lemma ExpansionIsConcatenation(line: SourceLine, macros: MacroTable, path: seq<string>, syntax: Syntax)
    returns (bodyLines: seq<SourceLine>, pieces: seq<seq<SourceLine>>)
    requires Invoked(line, macros, syntax).Some? && Inline(line, macros, path, syntax).Some?
    ensures var name, arguments := Invoked(line, macros, syntax).value, syntax.invocation(line.text).value.1;
            var definition := macros[name];
            && |arguments| == |definition.parameters| && name !in path
            && |bodyLines| == |pieces| == |definition.body|
            && (forall k :: 0 <= k < |pieces| ==>
                  IsSubstituted(bodyLines[k], definition, k, arguments, syntax)
                  && Inline(bodyLines[k], macros, path + [name], syntax) == Some(pieces[k]))
            && Inline(line, macros, path, syntax).value == Concatenated(pieces)
  {
    var name := Invoked(line, macros, syntax).value;
    bodyLines, pieces := BodyPieces(line, macros, name, |macros[name].body|, path + [name], syntax);
  }

  lemma {:induction false} BodyPieces(line: SourceLine, macros: MacroTable, name: string, n: nat, path: seq<string>, syntax: Syntax)
    returns (bodyLines: seq<SourceLine>, pieces: seq<seq<SourceLine>>)
    requires name in macros && n <= |macros[name].body| && syntax.invocation(line.text).Some?
    requires InlineBody(line, macros, name, n, path, syntax).Some?
    ensures |bodyLines| == |pieces| == n
    ensures forall k :: 0 <= k < n ==>
              IsSubstituted(bodyLines[k], macros[name], k, syntax.invocation(line.text).value.1, syntax)
              && Inline(bodyLines[k], macros, path, syntax) == Some(pieces[k])
    ensures InlineBody(line, macros, name, n, path, syntax).value == Concatenated(pieces)
    decreases n
  {
    hide Inline;
    if n == 0 {
      bodyLines, pieces := [], [];
    } else {
      var lines, before := BodyPieces(line, macros, name, n - 1, path, syntax);
      var own := Instance(line, macros[name], n - 1, syntax);
      bodyLines, pieces := lines + [own], before + [Inline(own, macros, path, syntax).value];
      assert pieces[..n - 1] == before;
    }
  }

  /** A macro whose substituted body lines invoke nothing expands to exactly those lines, in order. */
  lemma PlainBodyExpands(line: SourceLine, macros: MacroTable, syntax: Syntax, name: string, bodyLines: seq<SourceLine>)
    requires Invoked(line, macros, syntax) == Some(name) && |bodyLines| == |macros[name].body|
    requires |syntax.invocation(line.text).value.1| == |macros[name].parameters|
    requires forall k :: 0 <= k < |bodyLines| ==>
               IsSubstituted(bodyLines[k], macros[name], k, syntax.invocation(line.text).value.1, syntax)
               && Invoked(bodyLines[k], macros, syntax) == None
    ensures Inline(line, macros, [], syntax) == Some(bodyLines)
  {
    PlainBodySoFar(line, macros, name, |bodyLines|, syntax, bodyLines);
    assert bodyLines[..|bodyLines|] == bodyLines;
    var outermost: seq<string> := [];
    assert outermost + [name] == [name];
  }

  lemma {:induction false} PlainBodySoFar(line: SourceLine, macros: MacroTable, name: string, n: nat, syntax: Syntax, bodyLines: seq<SourceLine>)
    requires name in macros && n <= |macros[name].body| == |bodyLines| && syntax.invocation(line.text).Some?
    requires forall k :: 0 <= k < |bodyLines| ==>
               IsSubstituted(bodyLines[k], macros[name], k, syntax.invocation(line.text).value.1, syntax)
               && Invoked(bodyLines[k], macros, syntax) == None
    ensures InlineBody(line, macros, name, n, [name], syntax) == Some(bodyLines[..n])
    decreases n
  {
    if n > 0 {
      PlainBodySoFar(line, macros, name, n - 1, syntax, bodyLines);
      assert Instance(line, macros[name], n - 1, syntax) == bodyLines[n - 1];
      assert bodyLines[..n - 1] + [bodyLines[n - 1]] == bodyLines[..n];
    }
  }

  // ---- the result invokes nothing ----

  ghost predicate InvokesNothing(lines: seq<SourceLine>, macros: MacroTable, syntax: Syntax)
  {
    forall k :: 0 <= k < |lines| ==> Invoked(lines[k], macros, syntax).None?
  }

  lemma {:induction false} InlinedInvokesNothing(line: SourceLine, macros: MacroTable, path: seq<string>, syntax: Syntax)
    requires Inline(line, macros, path, syntax).Some?
    ensures InvokesNothing(Inline(line, macros, path, syntax).value, macros, syntax)
    decreases MAX_DEPTH - |path|, 1, 0
  {
    if Invoked(line, macros, syntax).Some? {
      var name := Invoked(line, macros, syntax).value;
      BodyInvokesNothing(line, macros, name, |macros[name].body|, path + [name], syntax);
    }
  }

  lemma {:induction false} BodyInvokesNothing(line: SourceLine, macros: MacroTable, name: string, n: nat, path: seq<string>, syntax: Syntax)
    requires name in macros && n <= |macros[name].body| && syntax.invocation(line.text).Some?
    requires InlineBody(line, macros, name, n, path, syntax).Some?
    ensures InvokesNothing(InlineBody(line, macros, name, n, path, syntax).value, macros, syntax)
    decreases MAX_DEPTH - |path|, 2, n
  {
    hide Inline, Invoked;
    if n > 0 {
      BodyInvokesNothing(line, macros, name, n - 1, path, syntax);
      InlinedInvokesNothing(Instance(line, macros[name], n - 1, syntax), macros, path, syntax);
    }
  }

  /** All lines inlined in order, from an empty call stack. */
  function InlineAll(lines: seq<SourceLine>, macros: MacroTable, n: nat, syntax: Syntax): Option<seq<SourceLine>>
    requires n <= |lines|
  {
    if n == 0 then Some([])
    else match InlineAll(lines, macros, n - 1, syntax)
      case None => None
      case Some(before) =>
        match Inline(lines[n - 1], macros, [], syntax) case None => None case Some(more) => Some(before + more)
  }

  lemma {:induction false} AllInvokeNothing(lines: seq<SourceLine>, macros: MacroTable, n: nat, syntax: Syntax)
    requires n <= |lines| && InlineAll(lines, macros, n, syntax).Some?
    ensures InvokesNothing(InlineAll(lines, macros, n, syntax).value, macros, syntax)
  {
    hide Inline, Invoked;
    if n > 0 {
      AllInvokeNothing(lines, macros, n - 1, syntax);
      InlinedInvokesNothing(lines[n - 1], macros, [], syntax);
    }
  }

  /** What is left after expansion, fed to the expander again, comes back unchanged. */
  lemma ExpansionIsFinal(lines: seq<SourceLine>, macros: MacroTable, syntax: Syntax)
    requires InlineAll(lines, macros, |lines|, syntax).Some?
    ensures var result := InlineAll(lines, macros, |lines|, syntax).value;
            InlineAll(result, macros, |result|, syntax) == Some(result)
  {
    var result := InlineAll(lines, macros, |lines|, syntax).value;
    AllInvokeNothing(lines, macros, |lines|, syntax);
    PlainLinesStay(result, macros, |result|, syntax);
    assert result[..|result|] == result;
  }

  lemma {:induction false} PlainLinesStay(lines: seq<SourceLine>, macros: MacroTable, n: nat, syntax: Syntax)
    requires n <= |lines| && InvokesNothing(lines, macros, syntax)
    ensures InlineAll(lines, macros, n, syntax) == Some(lines[..n])
  {
    if n > 0 {
      PlainLinesStay(lines, macros, n - 1, syntax);
      assert lines[..n - 1] + [lines[n - 1]] == lines[..n];
    }
  }

  // ---- the expander ----

  /** Whether the output holds the inlined lines: the expander stops at its line limit. */
  predicate Fits(output: seq<SourceLine>, inlined: Option<seq<SourceLine>>)
  {
    inlined.Some? && |output| + |inlined.value| <= MAX_LINES
  }

  class Expander {
    const macros: MacroTable
    const syntax: Syntax
    var stack: seq<string>
    var output: seq<SourceLine>

    constructor (macros: MacroTable, syntax: Syntax)
      ensures this.macros == macros && this.syntax == syntax && stack == [] && output == []
    {
      this.macros, this.syntax, stack, output := macros, syntax, [], [];
    }

    /** Expands one line onto the output; on success the call stack is as before. */
    method ExpandLine(line: SourceLine) returns (ok: bool)
      requires |output| <= MAX_LINES
      modifies this
      ensures ok == Fits(old(output), Inline(line, macros, old(stack), syntax))
      ensures ok ==> stack == old(stack) && output == old(output) + Inline(line, macros, old(stack), syntax).value
      ensures |output| <= MAX_LINES
      decreases MAX_DEPTH - |stack|
    {
      hide InlineBody;
      var invoked := Invoked(line, macros, syntax);
      if invoked.None? {
        if |output| >= MAX_LINES { return false; }
        output := output + [line];
        return true;
      }
      var name := invoked.value;
      if name in stack { return false; }
      if |stack| >= MAX_DEPTH { return false; }
      if |syntax.invocation(line.text).value.1| != |macros[name].parameters| { return false; }
      stack := stack + [name];
      ok := ExpandBody(line, name);
      if ok { stack := stack[..|stack| - 1]; }
    }

    method ExpandBody(line: SourceLine, name: string) returns (ok: bool)
      requires |output| <= MAX_LINES && 0 < |stack| <= MAX_DEPTH
      requires name in macros && syntax.invocation(line.text).Some?
      modifies this
      ensures ok == Fits(old(output), InlineBody(line, macros, name, |macros[name].body|, old(stack), syntax))
      ensures ok ==> stack == old(stack)
      ensures ok ==> output == old(output) + InlineBody(line, macros, name, |macros[name].body|, old(stack), syntax).value
      ensures |output| <= MAX_LINES
      decreases MAX_DEPTH - |stack| + 1, 0
    {
      hide Inline;
      var body := macros[name].body;
      var k := 0;
      while k < |body|
        invariant 0 <= k <= |body| && |output| <= MAX_LINES && stack == old(stack)
        invariant InlineBody(line, macros, name, k, stack, syntax).Some?
        invariant output == old(output) + InlineBody(line, macros, name, k, stack, syntax).value
      {
        var text := syntax.substitute(body[k].text, macros[name].parameters, syntax.invocation(line.text).value.1);
        ok := ExpandLine(SourceLine(text, body[k].number));
        if !ok {
          BodyStuck(line, macros, name, k + 1, old(stack), old(output), syntax);
          return;
        }
        k := k + 1;
      }
      return true;
    }

    method ExpandAll(lines: seq<SourceLine>) returns (ok: bool)
      requires stack == [] && output == []
      modifies this
      ensures ok == Fits([], InlineAll(lines, macros, |lines|, syntax))
      ensures ok ==> stack == [] && output == InlineAll(lines, macros, |lines|, syntax).value
    {
      hide Inline;
      var i := 0;
      while i < |lines|
        invariant 0 <= i <= |lines| && |output| <= MAX_LINES && stack == []
        invariant InlineAll(lines, macros, i, syntax) == Some(output)
      {
        ok := ExpandLine(lines[i]);
        if !ok {
          AllStuck(lines, macros, i + 1, syntax);
          return;
        }
        i := i + 1;
      }
      return true;
    }
  }

  /** Once part of a body does not fit, the whole does not. */
  lemma {:induction false} BodyStuck(line: SourceLine, macros: MacroTable, name: string, n: nat, path: seq<string>,
                                     output: seq<SourceLine>, syntax: Syntax)
    requires name in macros && n <= |macros[name].body| && syntax.invocation(line.text).Some?
    requires !Fits(output, InlineBody(line, macros, name, n, path, syntax))
    ensures !Fits(output, InlineBody(line, macros, name, |macros[name].body|, path, syntax))
    decreases |macros[name].body| - n
  {
    hide Inline;
    if n < |macros[name].body| { BodyStuck(line, macros, name, n + 1, path, output, syntax); }
  }

  lemma {:induction false} AllStuck(lines: seq<SourceLine>, macros: MacroTable, n: nat, syntax: Syntax)
    requires n <= |lines| && !Fits([], InlineAll(lines, macros, n, syntax))
    ensures !Fits([], InlineAll(lines, macros, |lines|, syntax))
    decreases |lines| - n
  {
    hide Inline;
    if n < |lines| { AllStuck(lines, macros, n + 1, syntax); }
  }
}
