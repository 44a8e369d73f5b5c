/** The line store of the BASIC interpreter: 256 slots in an array, kept in order by an
    exchange sort, behaving as a bounded map from line numbers to texts. */
module BasicLines {
  import opened Bytes
  import opened Options

  type LineNumber = x: int | 0 <= x < 0x1_0000

  const LINE_CAPACITY := 96
  const PROGRAM_CAPACITY := 256

  datatype ProgramLine = ProgramLine(number: LineNumber, length: nat, bytes: seq<Byte>, used: bool)

  type Program = map<LineNumber, seq<Byte>>

  datatype Outcome = Ok | LineTooLong | ProgramFull

  predicate Fits(line: ProgramLine) { |line.bytes| == LINE_CAPACITY && line.length <= LINE_CAPACITY }

  function Text(line: ProgramLine): seq<Byte>
    requires Fits(line)
  {
    line.bytes[..line.length]
  }

  // ---- the map the slots stand for ----

  ghost predicate AllFit(slots: seq<ProgramLine>)
  {
    forall i :: 0 <= i < |slots| ==> Fits(slots[i])
  }

  ghost predicate Holds(slots: seq<ProgramLine>, i: int, number: LineNumber)
  {
    0 <= i < |slots| && slots[i].used && slots[i].number == number
  }

  /** The used slots are the program's lines. */
  ghost predicate Represents(slots: seq<ProgramLine>, program: Program)
    requires AllFit(slots)
  {
    && (forall i :: 0 <= i < |slots| && slots[i].used ==>
          slots[i].number in program && program[slots[i].number] == Text(slots[i]))
    && (forall number :: number in program ==> exists i :: Holds(slots, i, number))
  }

  /** No two used slots have the same number. */
  ghost predicate Apart(slots: seq<ProgramLine>)
  {
    forall i, j :: 0 <= i < j < |slots| && slots[i].used && slots[j].used ==> slots[i].number != slots[j].number
  }

  ghost predicate Ascending(slots: seq<ProgramLine>)
  {
    forall i, j :: 0 <= i < j < |slots| && slots[i].used && slots[j].used ==> slots[i].number < slots[j].number
  }

  /** The used slots, in order. */
  function Used(slots: seq<ProgramLine>): seq<ProgramLine>
  {
    if slots == [] then []
    else Used(slots[..|slots| - 1]) + if slots[|slots| - 1].used then [slots[|slots| - 1]] else []
  }

  lemma {:induction false} UsedCount(slots: seq<ProgramLine>)
    ensures |Used(slots)| <= |slots|
    ensures |Used(slots)| == |slots| <==> forall i :: 0 <= i < |slots| ==> slots[i].used
  {
    if slots != [] { UsedCount(slots[..|slots| - 1]); }
  }

  /** The program has as many lines as there are used slots. */
  lemma {:induction false} ProgramSize(slots: seq<ProgramLine>, program: Program)
    requires AllFit(slots) && Apart(slots) && Represents(slots, program)
    ensures |program| == |Used(slots)|
    decreases |slots|
  {
    hide Represents, Apart, Holds;
    if slots == [] {
      NoLines(slots, program);
    } else {
      var last := slots[|slots| - 1];
      var fewer := if last.used then program - {last.number} else program;
      ShorterRepresents(slots, program);
      ProgramSize(slots[..|slots| - 1], fewer);
      if last.used { assert program.Keys == fewer.Keys + {last.number}; }
    }
  }

  lemma NoLines(slots: seq<ProgramLine>, program: Program)
    requires slots == [] && Represents(slots, program)
    ensures |program| == 0
  {
    assert forall i, number :: !Holds(slots, i, number);
    assert program.Keys == {};
  }

  lemma ShorterRepresents(slots: seq<ProgramLine>, program: Program)
    requires slots != [] && AllFit(slots) && Apart(slots) && Represents(slots, program)
    ensures var last := slots[|slots| - 1];
            && Represents(slots[..|slots| - 1], if last.used then program - {last.number} else program)
            && Apart(slots[..|slots| - 1]) && (last.used ==> last.number in program)
  {
    var n := |slots| - 1;
    var fewer := if slots[n].used then program - {slots[n].number} else program;
    forall number | number in fewer ensures exists i :: Holds(slots[..n], i, number) {
      var i :| Holds(slots, i, number);
      assert Holds(slots[..n], i, number);
    }
  }

  /** Used slots in ascending order list their numbers in ascending order. */
  lemma {:induction false} UsedAscending(slots: seq<ProgramLine>)
    requires Ascending(slots)
    ensures forall i, j :: 0 <= i < j < |Used(slots)| ==> Used(slots)[i].number < Used(slots)[j].number
    ensures forall i :: 0 <= i < |Used(slots)| ==> Used(slots)[i].used && Used(slots)[i] in slots
    ensures forall i :: 0 <= i < |slots| && slots[i].used ==> slots[i] in Used(slots)
  {
    if slots != [] {
      var n := |slots| - 1;
      UsedAscending(slots[..n]);
      forall i | 0 <= i < |Used(slots[..n])| && slots[n].used ensures Used(slots[..n])[i].number < slots[n].number {
        var k :| 0 <= k < n && slots[..n][k] == Used(slots[..n])[i];
      }
      forall i | 0 <= i < |slots| && slots[i].used ensures slots[i] in Used(slots) {
        if i < n { assert slots[..n][i] == slots[i]; }
      }
    }
  }

  // ---- the bounded map ----

  function InsertOutcome(program: Program, number: LineNumber, text: seq<Byte>): Outcome
  {
    if |text| > LINE_CAPACITY then LineTooLong
    else if number !in program && |program| == PROGRAM_CAPACITY then ProgramFull
    else Ok
  }

  /** An accepted empty text removes the line, any other replaces it. */
  function Inserted(program: Program, number: LineNumber, text: seq<Byte>): Program
  {
    if InsertOutcome(program, number, text) != Ok then program
    else if text == [] then program - {number}
    else program[number := text]
  }

  datatype Edit = InsertLine(number: LineNumber, text: seq<Byte>) | ClearProgram

  /** The program after a sequence of edits. */
  function AfterEdits(program: Program, edits: seq<Edit>): Program
    decreases |edits|
  {
    if edits == [] then program
    else AfterEdits(match edits[0]
                    case InsertLine(number, text) => Inserted(program, number, text)
                    case ClearProgram => map[], edits[1..])
  }

  /** At most 256 lines, none of them empty or longer than 96 bytes. */
  predicate Bounded(program: Program)
  {
    |program| <= PROGRAM_CAPACITY && forall n :: n in program ==> 1 <= |program[n]| <= LINE_CAPACITY
  }

  lemma InsertedBounded(program: Program, number: LineNumber, text: seq<Byte>)
    requires Bounded(program)
    ensures Bounded(Inserted(program, number, text))
  {
    if InsertOutcome(program, number, text) == Ok {
      if text == [] {
        RemovedSize(program, number);
      } else if number in program {
        assert program[number := text].Keys == program.Keys;
      } else {
        assert program[number := text].Keys == program.Keys + {number};
      }
    }
  }

  lemma RemovedSize(program: Program, number: LineNumber)
    ensures |program - {number}| <= |program|
  {
    if number in program {
      assert program.Keys == (program - {number}).Keys + {number};
    } else {
      assert program - {number} == program;
    }
  }

  /** Every sequence of edits keeps the program bounded. */
  lemma {:induction false} EditsKeepBounded(program: Program, edits: seq<Edit>)
    requires Bounded(program)
    ensures Bounded(AfterEdits(program, edits))
    decreases |edits|
  {
    hide Bounded, Inserted;
    if edits != [] {
      match edits[0] {
        case InsertLine(number, text) =>
          InsertedBounded(program, number, text);
          EditsKeepBounded(Inserted(program, number, text), edits[1..]);
        case ClearProgram =>
          NothingBounded();
          EditsKeepBounded(map[], edits[1..]);
      }
    }
  }

  lemma NothingBounded()
    ensures Bounded(map[])
  {
  }

  // ---- exchanging slots ----

  /** Used slots by number, then the free ones. */
  function Rank(line: ProgramLine): nat { if line.used then line.number else 0x1_0000 }

  lemma SwapKeeps(slots: seq<ProgramLine>, i: nat, j: nat, program: Program)
    requires i < j < |slots| && AllFit(slots) && Apart(slots) && Represents(slots, program)
    ensures var swapped := slots[i := slots[j]][j := slots[i]];
            AllFit(swapped) && Apart(swapped) && Represents(swapped, program)
  {
    var swapped := slots[i := slots[j]][j := slots[i]];
    forall number | number in program ensures exists k :: Holds(swapped, k, number) {
      var k :| Holds(slots, k, number);
      assert Holds(swapped, if k == i then j else if k == j then i else k, number);
    }
  }

  /** Slots sorted by rank and apart are ascending. */
  lemma SortedAscending(slots: seq<ProgramLine>)
    requires Apart(slots) && forall a, b :: 0 <= a < b < |slots| ==> Rank(slots[a]) <= Rank(slots[b])
    ensures Ascending(slots)
  {
  }

  lemma PutKeeps(slots: seq<ProgramLine>, index: nat, line: ProgramLine, program: Program)
    requires index < |slots| && AllFit(slots) && Apart(slots) && Represents(slots, program)
    requires line.used && Fits(line)
    requires if line.number in program then Holds(slots, index, line.number) else !slots[index].used
    ensures var changed := slots[index := line];
            AllFit(changed) && Apart(changed) && Represents(changed, program[line.number := Text(line)])
  {
    var changed := slots[index := line];
    var more := program[line.number := Text(line)];
    forall number | number in more ensures exists k :: Holds(changed, k, number) {
      if number == line.number {
        assert Holds(changed, index, number);
      } else {
        var k :| Holds(slots, k, number);
        assert Holds(changed, k, number);
      }
    }
  }

  lemma DropKeeps(slots: seq<ProgramLine>, index: nat, number: LineNumber, program: Program)
    requires index < |slots| && AllFit(slots) && Ascending(slots) && Represents(slots, program)
    requires if number in program then Holds(slots, index, number) else !slots[index].used
    ensures var changed := slots[index := slots[index].(used := false)];
            AllFit(changed) && Ascending(changed) && Represents(changed, program - {number})
  {
    var changed := slots[index := slots[index].(used := false)];
    forall other | other in program - {number} ensures exists k :: Holds(changed, k, other) {
      var k :| Holds(slots, k, other);
      assert Holds(changed, k, other);
    }
  }

  class BasicState {
    const lines: array<ProgramLine>
    ghost var program: Program

    ghost predicate Valid()
      reads this, lines
    {
      lines.Length == PROGRAM_CAPACITY && AllFit(lines[..]) && Ascending(lines[..]) && Represents(lines[..], program)
    }

    constructor ()
      ensures Valid() && fresh(lines) && program == map[]
    {
      lines := new ProgramLine[PROGRAM_CAPACITY](_ => ProgramLine(0, 0, ZeroBytes(LINE_CAPACITY), false));
      program := map[];
    }

    method Clear()
      requires Valid()
      modifies this, lines
      ensures Valid() && program == map[]
    {
      var i := 0;
      while i < lines.Length
        invariant 0 <= i <= lines.Length && AllFit(lines[..])
        invariant forall k :: 0 <= k < i ==> !lines[k].used
      {
        lines[i] := lines[i].(used := false);
        i := i + 1;
      }
      program := map[];
    }

    /** The slot a line goes to: its own, or else the first free one. */
    method FindSlot(number: LineNumber) returns (slot: Option<nat>)
      requires lines.Length == PROGRAM_CAPACITY
      ensures slot.Some? ==> slot.value < lines.Length
      ensures slot.Some? && lines[slot.value].used ==> lines[slot.value].number == number
      ensures slot.Some? && !lines[slot.value].used ==> forall k :: 0 <= k < lines.Length ==> !Holds(lines[..], k, number)
      ensures slot.None? ==> forall k :: 0 <= k < lines.Length ==> lines[k].used && lines[k].number != number
    {
      slot := None;
      var index := 0;
      while index < lines.Length
        invariant 0 <= index <= lines.Length
        invariant forall k :: 0 <= k < index ==> !(lines[k].used && lines[k].number == number)
        invariant slot.Some? ==> slot.value < index && !lines[slot.value].used
        invariant slot.None? ==> forall k :: 0 <= k < index ==> lines[k].used
      {
        if lines[index].used && lines[index].number == number { return Some(index); }
        if !lines[index].used && slot.None? { slot := Some(index); }
        index := index + 1;
      }
    }

    method Insert(number: LineNumber, text: seq<Byte>) returns (outcome: Outcome)
      requires Valid()
      modifies this, lines
      ensures Valid()
      ensures outcome == InsertOutcome(old(program), number, text)
      ensures program == Inserted(old(program), number, text)
    {
      if |text| > LINE_CAPACITY { return LineTooLong; }
      var slot := FindSlot(number);
      SlotMeaning(lines[..], program, number, slot);
      if slot.None? { return ProgramFull; }
      if text == [] {
        Drop(slot.value, number);
      } else {
        Put(slot.value, number, text);
      }
      return Ok;
    }

    method Drop(index: nat, number: LineNumber)
      requires Valid() && index < lines.Length
      requires if number in program then Holds(lines[..], index, number) else !lines[index].used
      modifies this, lines
      ensures Valid() && program == old(program) - {number}
    {
      hide AllFit, Ascending, Represents;
      DropKeeps(lines[..], index, number, program);
      ghost var before := lines[..];
      lines[index] := lines[index].(used := false);
      assert lines[..] == before[index := before[index].(used := false)];
      program := program - {number};
    }

    method Put(index: nat, number: LineNumber, text: seq<Byte>)
      requires Valid() && index < lines.Length && |text| <= LINE_CAPACITY
      requires if number in program then Holds(lines[..], index, number) else !lines[index].used
      modifies this, lines
      ensures Valid() && program == old(program)[number := text]
    {
      hide AllFit, Ascending, Represents, Apart;
      var line := ProgramLine(number, |text|, text + ZeroBytes(LINE_CAPACITY - |text|), true);
      assert Text(line) == text;
      AscendingApart(lines[..]);
      PutKeeps(lines[..], index, line, program);
      ghost var before := lines[..];
      lines[index] := line;
      assert lines[..] == before[index := line];
      program := program[number := text];
      Sort();
    }

    /** The exchange sort: used slots first, by number. */
    method Sort()
      requires lines.Length == PROGRAM_CAPACITY && AllFit(lines[..]) && Apart(lines[..]) && Represents(lines[..], program)
      modifies lines
      ensures Valid()
    {
      hide AllFit, Apart, Represents, Ascending;
      var left := 0;
      while left < lines.Length
        invariant 0 <= left <= lines.Length
        invariant AllFit(lines[..]) && Apart(lines[..]) && Represents(lines[..], program)
        invariant forall a, b :: 0 <= a < left && a < b < lines.Length ==> Rank(lines[a]) <= Rank(lines[b])
      {
        var right := left + 1;
        while right < lines.Length
          invariant left < right <= lines.Length
          invariant AllFit(lines[..]) && Apart(lines[..]) && Represents(lines[..], program)
          invariant forall a, b :: 0 <= a < left && a < b < lines.Length ==> Rank(lines[a]) <= Rank(lines[b])
          invariant forall b :: left < b < right ==> Rank(lines[left]) <= Rank(lines[b])
        {
          if lines[right].used && (!lines[left].used || lines[right].number < lines[left].number) {
            SwapKeeps(lines[..], left, right, program);
            ghost var before := lines[..];
            lines[left], lines[right] := lines[right], lines[left];
            assert lines[..] == before[left := before[right]][right := before[left]];
          }
          right := right + 1;
        }
        left := left + 1;
      }
      SortedAscending(lines[..]);
    }

    method Apply(edits: seq<Edit>)
      requires Valid()
      modifies this, lines
      ensures Valid() && program == AfterEdits(old(program), edits)
    {
      hide Inserted;
      var i := 0;
      while i < |edits|
        invariant 0 <= i <= |edits| && Valid()
        invariant AfterEdits(program, edits[i..]) == AfterEdits(old(program), edits)
      {
        assert edits[i..][0] == edits[i] && edits[i..][1..] == edits[i + 1..];
        match edits[i] {
          case InsertLine(number, text) => var outcome := Insert(number, text);
          case ClearProgram => Clear();
        }
        i := i + 1;
      }
      assert edits[i..] == [];
    }

    /** The used line at a position. */
    method LineAt(index: nat) returns (line: Option<ProgramLine>)
      requires Valid()
      ensures line == if index < |Used(lines[..])| then Some(Used(lines[..])[index]) else None
    {
      var seen := 0;
      var i := 0;
      while i < lines.Length
        invariant 0 <= i <= lines.Length && seen == |Used(lines[..i])| <= index
      {
        UsedStep(lines[..], i);
        if lines[i].used {
          if seen == index {
            UsedPrefix(lines[..], i + 1);
            return Some(lines[i]);
          }
          seen := seen + 1;
        }
        i := i + 1;
      }
      assert lines[..i] == lines[..];
      return None;
    }

    /** The position of a line number among the used lines. */
    method FindLine(number: LineNumber) returns (position: Option<nat>)
      requires Valid()
      ensures position.Some? ==> position.value < |Used(lines[..])| && Used(lines[..])[position.value].number == number
      ensures position.None? <==> number !in program
    {
      var seen := 0;
      var i := 0;
      while i < lines.Length
        invariant 0 <= i <= lines.Length && seen == |Used(lines[..i])|
        invariant forall k :: 0 <= k < i ==> !Holds(lines[..], k, number)
      {
        UsedStep(lines[..], i);
        if lines[i].used {
          if lines[i].number == number {
            UsedPrefix(lines[..], i + 1);
            return Some(seen);
          }
          seen := seen + 1;
        }
        i := i + 1;
      }
      return None;
    }

    /** Where GOTO continues: the line at the position found for its number. */
    method Goto(number: LineNumber) returns (line: Option<ProgramLine>)
      requires Valid()
      ensures line.Some? <==> number in program
      ensures line.Some? ==> line.value.number == number && Fits(line.value) && Text(line.value) == program[number]
    {
      hide AllFit, Ascending, Represents, Used;
      var position := FindLine(number);
      if position.None? { return None; }
      line := LineAt(position.value);
      FoundLine(lines[..], program, number, position.value);
    }
  }

  lemma AscendingApart(slots: seq<ProgramLine>)
    requires Ascending(slots)
    ensures Apart(slots)
  {
  }

  /** What the search for a slot says about the map. */
  lemma SlotMeaning(slots: seq<ProgramLine>, program: Program, number: LineNumber, slot: Option<nat>)
    requires |slots| == PROGRAM_CAPACITY && AllFit(slots) && Ascending(slots) && Represents(slots, program)
    requires slot.Some? ==> slot.value < |slots|
    requires slot.Some? && slots[slot.value].used ==> slots[slot.value].number == number
    requires slot.Some? && !slots[slot.value].used ==> forall k :: 0 <= k < |slots| ==> !Holds(slots, k, number)
    requires slot.None? ==> forall k :: 0 <= k < |slots| ==> slots[k].used && slots[k].number != number
    ensures slot.None? <==> number !in program && |program| == PROGRAM_CAPACITY
    ensures slot.Some? ==> if number in program then Holds(slots, slot.value, number) else !slots[slot.value].used
    ensures |program| <= PROGRAM_CAPACITY
  {
    AscendingApart(slots);
    ProgramSize(slots, program);
    UsedCount(slots);
    if number in program { var i :| Holds(slots, i, number); }
  }

  lemma UsedStep(slots: seq<ProgramLine>, i: nat)
    requires i < |slots|
    ensures Used(slots[..i + 1]) == Used(slots[..i]) + if slots[i].used then [slots[i]] else []
  {
    assert slots[..i + 1][..i] == slots[..i];
  }

  /** The used slots of a prefix come first among all of them. */
  lemma {:induction false} UsedPrefix(slots: seq<ProgramLine>, n: nat)
    requires n <= |slots|
    ensures Used(slots[..n]) <= Used(slots)
    decreases |slots| - n
  {
    if n < |slots| {
      UsedStep(slots, n);
      UsedPrefix(slots, n + 1);
    } else {
      assert slots[..n] == slots;
    }
  }

  /** The line found for a number of the program is that line, and its position counts the lines before it. */
  lemma FoundLine(slots: seq<ProgramLine>, program: Program, number: LineNumber, position: nat)
    requires AllFit(slots) && Ascending(slots) && Represents(slots, program)
    requires position < |Used(slots)| && Used(slots)[position].number == number
    ensures Fits(Used(slots)[position]) && number in program && Text(Used(slots)[position]) == program[number]
    ensures forall k :: 0 <= k < |Used(slots)| ==> (k < position <==> Used(slots)[k].number < number)
  {
    hide Used;
    UsedAscending(slots);
    InProgram(slots, program, Used(slots)[position]);
    OrderIsPosition(Used(slots), position);
  }

  lemma InProgram(slots: seq<ProgramLine>, program: Program, line: ProgramLine)
    requires AllFit(slots) && Represents(slots, program) && line in slots && line.used
    ensures Fits(line) && line.number in program && Text(line) == program[line.number]
  {
    hide Text, Fits;
    var i :| 0 <= i < |slots| && slots[i] == line;
  }

  lemma OrderIsPosition(lines: seq<ProgramLine>, position: nat)
    requires position < |lines| && forall i, j :: 0 <= i < j < |lines| ==> lines[i].number < lines[j].number
    ensures forall k :: 0 <= k < |lines| ==> (k < position <==> lines[k].number < lines[position].number)
  {
  }
}
