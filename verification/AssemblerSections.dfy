/** The sections of an assembled program: every emitted byte is in exactly one of them, in order, and
    a section's image reproduces the listed addresses exactly when the section is contiguous. */
module AssemblerSections {
  import opened Bytes
  import opened Options
  import opened Assembler
  import opened AssemblerProof

  // ---- what a section should hold ----

  /** The bytes that the listed lines of a section emitted, in order. */
  function Gathered(listing: seq<Entry>, name: string): seq<Byte>
  {
    if listing == [] then []
    else
      var last := listing[|listing| - 1];
      Gathered(listing[..|listing| - 1], name) + if last.section == name then last.bytes else []
  }

  /** Where the first line of a section stands. */
  function FirstLine(listing: seq<Entry>, name: string): (r: nat)
    ensures r <= |listing|
    ensures r < |listing| ==> listing[r].section == name
    ensures forall k :: 0 <= k < r ==> listing[k].section != name
  {
    if listing == [] || listing[0].section == name then 0 else 1 + FirstLine(listing[1..], name)
  }

  function FirstAddress(listing: seq<Entry>, name: string): Option<nat>
  {
    var k := FirstLine(listing, name);
    if k < |listing| then Some(listing[k].address) else None
  }

  predicate HasName(table: seq<SectionState>, name: string)
  {
    exists i :: 0 <= i < |table| && table[i].name == name
  }

  function TotalBytes(table: seq<SectionState>): nat
  {
    if table == [] then 0 else TotalBytes(table[..|table| - 1]) + |table[|table| - 1].bytes|
  }

  /** One section per name, each with the bytes of its lines and the address of the first; .text starts at 0. */
  ghost predicate TableOk(table: seq<SectionState>, listing: seq<Entry>)
  {
    && |table| > 0 && table[0].name == ".text" && table[0].address == Some(0)
    && (forall i, j :: 0 <= i < j < |table| ==> table[i].name != table[j].name)
    && (forall i :: 0 <= i < |table| ==> table[i].bytes == Gathered(listing, table[i].name))
    && (forall i :: 1 <= i < |table| ==> table[i].address == FirstAddress(listing, table[i].name))
    && (forall k :: 0 <= k < |listing| ==> HasName(table, listing[k].section))
  }

  // ---- one line ----

  /** The table with a new section at its end, or as it was. */
  ghost predicate Extended(before: seq<SectionState>, after: seq<SectionState>)
  {
    after == before
    || (exists name, flags :: after == before + [SectionState(name, flags, None, 1, [])] && !HasName(before, name))
  }

  /** No section but the current one is new. */
  ghost predicate OnlyCurrent(before: seq<SectionState>, after: seq<SectionState>, current: nat)
  {
    forall i :: 0 <= i < |after| && i != current ==> i < |before| && after[i] == before[i]
  }

  /** The current section opened at pc, and given a line's bytes. */
  ghost predicate Grown(before: seq<SectionState>, after: seq<SectionState>, current: nat, pc: nat, bytes: seq<Byte>)
  {
    |after| == |before| && current < |before|
    && (forall i :: 0 <= i < |before| && i != current ==> after[i] == before[i])
    && after[current].name == before[current].name && after[current].flags == before[current].flags
    && after[current].address == (if before[current].address.Some? then before[current].address else Some(pc))
    && after[current].bytes == before[current].bytes + bytes
    && after[current].alignment >= before[current].alignment
  }

  lemma StepShape(line: Line, s: PassTwo, t: PassTwo, final: PassOne, target: Target) returns (middle: seq<SectionState>, bytes: seq<Byte>)
    requires StepTwo(line, s, final, target) == Some(t)
    ensures t.listing == s.listing + [Entry(s.pc, CurrentSection(t.layout).name, bytes)]
    ensures t.pc == s.pc + |bytes| && t.text == s.text + bytes
    ensures Extended(s.layout.table, middle) && Grown(middle, t.layout.table, t.layout.current, s.pc, bytes)
    ensures OnlyCurrent(s.layout.table, middle, t.layout.current)
  {
    hide UpdateScope, ApplySet, EmitIn, SelectSection, Extended, OnlyCurrent, Opened, Grown;
    if line.operation.Section? {
      var (name, flags) := line.operation.spec.value;
      var (table, current) := SelectSection(s.layout.table, name, flags).value;
      middle, bytes := table, [];
      SelectExtends(s.layout.table, name, flags);
      OpenedGrows(RawLayout(table, current), s.pc);
      assert t.layout == Opened(RawLayout(table, current), s.pc) && t.layout.current == current;
    } else {
      middle := s.layout.table;
      var global := UpdateScope(line.labels, s.global).value;
      var standing := s.(global := global, layout := Opened(s.layout, s.pc));
      OpenedGrows(s.layout, s.pc);
      SameExtends(middle, t.layout.current);
      bytes := EmitShape(line, standing, t, final, target);
      GrowsOn(middle, standing.layout.table, t.layout.table, t.layout.current, s.pc, bytes);
    }
  }

  lemma SameExtends(table: seq<SectionState>, current: nat)
    ensures Extended(table, table) && OnlyCurrent(table, table, current)
  {
  }

  lemma OpenedGrows(layout: Layout, pc: nat)
    ensures Grown(layout.table, Opened(layout, pc).table, layout.current, pc, [])
    ensures Opened(layout, pc).current == layout.current && CurrentSection(Opened(layout, pc)).address.Some?
    ensures CurrentSection(Opened(layout, pc)).name == CurrentSection(layout).name
  {
    assert CurrentSection(layout).bytes + [] == CurrentSection(layout).bytes;
  }

  lemma GrowsOn(a: seq<SectionState>, b: seq<SectionState>, c: seq<SectionState>, current: nat, pc: nat, bytes: seq<Byte>)
    requires Grown(a, b, current, pc, []) && Grown(b, c, current, pc, bytes)
    ensures Grown(a, c, current, pc, bytes)
  {
    assert a[current].bytes + [] == a[current].bytes;
  }

  /** A line in an open section adds its bytes to it. */
  lemma EmitShape(line: Line, s: PassTwo, t: PassTwo, final: PassOne, target: Target) returns (bytes: seq<Byte>)
    requires EmitIn(line, s, final, target) == Some(t) && CurrentSection(s.layout).address.Some?
    ensures t.listing == s.listing + [Entry(s.pc, CurrentSection(t.layout).name, bytes)]
    ensures t.pc == s.pc + |bytes| && t.text == s.text + bytes && t.layout.current == s.layout.current
    ensures Grown(s.layout.table, t.layout.table, s.layout.current, s.pc, bytes)
  {
    hide ApplySet, Scoped, ResolveControlLabel, AssembleParsed, RequiredAlignment;
    bytes := t.listing[|s.listing|].bytes;
    assert CurrentSection(s.layout).bytes + [] == CurrentSection(s.layout).bytes;
  }

  lemma SelectExtends(sections: seq<SectionState>, name: string, flags: string)
    requires SelectSection(sections, name, flags).Some?
    ensures var (table, current) := SelectSection(sections, name, flags).value;
            Extended(sections, table) && OnlyCurrent(sections, table, current)
  {
    if FindSection(sections, name, 0).None? { assert !HasName(sections, name); }
  }

  lemma {:induction false} GatheredNothing(listing: seq<Entry>, name: string)
    requires forall k :: 0 <= k < |listing| ==> listing[k].section != name
    ensures Gathered(listing, name) == []
    decreases |listing|
  {
    if listing != [] { GatheredNothing(listing[..|listing| - 1], name); }
  }

  lemma ExtendedKeeps(before: seq<SectionState>, after: seq<SectionState>, listing: seq<Entry>)
    requires TableOk(before, listing) && Extended(before, after)
    ensures TableOk(after, listing) && TotalBytes(after) == TotalBytes(before)
  {
    hide Gathered, FirstLine;
    if after != before {
      var name, flags :| after == before + [SectionState(name, flags, None, 1, [])] && !HasName(before, name);
      GatheredNothing(listing, name);
      assert after[..|before|] == before;
      forall k | 0 <= k < |listing| ensures HasName(after, listing[k].section) {
        var i :| 0 <= i < |before| && before[i].name == listing[k].section;
        assert after[i].name == listing[k].section;
      }
    }
  }

  lemma FirstLineAppend(listing: seq<Entry>, entry: Entry, name: string)
    ensures FirstLine(listing + [entry], name) ==
            if FirstLine(listing, name) < |listing| || entry.section == name then FirstLine(listing, name) else |listing| + 1
  {
    var all := listing + [entry];
    var f, g := FirstLine(listing, name), FirstLine(all, name);
    if f < |listing| { assert all[f].section == name; }
    if g < |listing| { assert listing[g].section == name; }
    assert all[|listing|] == entry;
  }

  lemma {:induction false} TotalGrows(before: seq<SectionState>, after: seq<SectionState>, current: nat, pc: nat, bytes: seq<Byte>)
    requires Grown(before, after, current, pc, bytes)
    ensures TotalBytes(after) == TotalBytes(before) + |bytes|
    decreases |before|
  {
    var n := |before| - 1;
    if current < n {
      TotalGrows(before[..n], after[..n], current, pc, bytes);
    } else {
      assert after[..n] == before[..n];
    }
  }

  lemma GrownKeeps(before: seq<SectionState>, after: seq<SectionState>, current: nat, listing: seq<Entry>, pc: nat, bytes: seq<Byte>)
    requires TableOk(before, listing) && Grown(before, after, current, pc, bytes)
    ensures TableOk(after, listing + [Entry(pc, after[current].name, bytes)])
  {
    hide Gathered, FirstLine;
    var entry := Entry(pc, after[current].name, bytes);
    var all := listing + [entry];
    forall i | 0 <= i < |after|
      ensures after[i].bytes == Gathered(all, after[i].name)
      ensures i > 0 ==> after[i].address == FirstAddress(all, after[i].name)
    {
      GatheredAppend(listing, entry, after[i].name);
      FirstLineAppend(listing, entry, after[i].name);
    }
    forall k | 0 <= k < |all| ensures HasName(after, all[k].section) {
      if k < |listing| {
        assert all[k] == listing[k];
        var i :| 0 <= i < |before| && before[i].name == listing[k].section;
        assert after[i].name == before[i].name;
      } else {
        assert after[current].name == all[k].section;
      }
    }
  }

  lemma GatheredAppend(listing: seq<Entry>, entry: Entry, name: string)
    ensures Gathered(listing + [entry], name) == Gathered(listing, name) + if entry.section == name then entry.bytes else []
  {
    assert (listing + [entry])[..|listing|] == listing;
  }

  // ---- whole programs ----

  ghost predicate SectionsOk(s: PassTwo)
  {
    && TableOk(s.layout.table, s.listing) && ListingOk(s)
    && TotalBytes(s.layout.table) == |s.text|
    && (if s.listing == [] then s.pc == 0 else s.listing[0].address == 0)
    && (forall i :: 1 <= i < |s.layout.table| ==> s.layout.table[i].address.Some?)
  }

  lemma StepKeepsSections(line: Line, s: PassTwo, t: PassTwo, final: PassOne, target: Target)
    requires SectionsOk(s) && StepTwo(line, s, final, target) == Some(t)
    ensures SectionsOk(t) && |t.listing| == |s.listing| + 1
  {
    hide StepTwo, TableOk, Extended, TotalBytes;
    var middle, bytes := StepShape(line, s, t, final, target);
    ExtendedKeeps(s.layout.table, middle, s.listing);
    GrownKeeps(middle, t.layout.table, t.layout.current, s.listing, s.pc, bytes);
    TotalGrows(middle, t.layout.table, t.layout.current, s.pc, bytes);
    assert t.listing[..|s.listing|] == s.listing;
    ListingGrows(s, t);
  }

  lemma StartSections(final: PassOne)
    ensures SectionsOk(StartTwo(final)) && StartTwo(final).listing == []
  {
    var table := StartTwo(final).layout.table;
    assert table == [SectionState(".text", "ax", Some(0), 1, [])];
    assert table[..0] == [];
  }

  lemma {:induction false} RunKeepsSections(lines: seq<Line>, n: nat, final: PassOne, target: Target)
    requires n <= |lines| && AfterTwo(lines, n, final, target).Some?
    ensures SectionsOk(AfterTwo(lines, n, final, target).value) && |AfterTwo(lines, n, final, target).value.listing| == n
    decreases n
  {
    hide SectionsOk, StepTwo, StartTwo;
    if n == 0 {
      StartSections(final);
    } else {
      RunKeepsSections(lines, n - 1, final, target);
      StepKeepsSections(lines[n - 1], AfterTwo(lines, n - 1, final, target).value, AfterTwo(lines, n, final, target).value, final, target);
    }
  }

  function ImageBytes(sections: seq<SectionImage>): nat
  {
    if sections == [] then 0 else ImageBytes(sections[..|sections| - 1]) + |sections[|sections| - 1].bytes|
  }

  lemma {:induction false} ImageTotal(table: seq<SectionState>, pc: nat)
    ensures ImageBytes(SectionImages(table, pc)) == TotalBytes(table)
    decreases |table|
  {
    if table != [] {
      var n := |table| - 1;
      ImageTotal(table[..n], pc);
      assert SectionImages(table, pc)[..n] == SectionImages(table[..n], pc);
    }
  }

  /** Every accepted program: its sections have distinct names, the first is .text at 0, and each starts at the address
      of its first line; every line stands in one; each section's bytes are those its lines emitted, in order, and
      together the sections hold as many bytes as the text: no byte is lost, doubled or moved. */
  lemma SectionsPartitionText(lines: seq<Line>, target: Target)
    requires AssembleProgram(lines, target).Some?
    ensures var image := AssembleProgram(lines, target).value;
            && |image.sections| > 0 && image.sections[0].name == ".text" && image.sections[0].address == 0
            && |image.listing| == |lines|
            && (forall i, j :: 0 <= i < j < |image.sections| ==> image.sections[i].name != image.sections[j].name)
            && (forall i :: 0 <= i < |image.sections| ==> image.sections[i].bytes == Gathered(image.listing, image.sections[i].name))
            && (forall i :: 1 <= i < |image.sections| ==>
                  FirstAddress(image.listing, image.sections[i].name) == Some(image.sections[i].address))
            && (forall k :: 0 <= k < |image.listing| ==>
                  exists i :: 0 <= i < |image.sections| && image.sections[i].name == image.listing[k].section)
            && ImageBytes(image.sections) == |image.text|
  {
    hide AfterOne, AfterTwo, Gathered, FirstAddress, ListingOk, TotalBytes, ImageBytes;
    var final := AfterOne(lines, |lines|).value;
    RunKeepsSections(lines, |lines|, final, target);
    var s := AfterTwo(lines, |lines|, final, target).value;
    var image := AssembleProgram(lines, target).value;
    ImageTotal(s.layout.table, s.pc);
    forall k | 0 <= k < |image.listing|
      ensures exists i :: 0 <= i < |image.sections| && image.sections[i].name == image.listing[k].section
    {
      var i :| 0 <= i < |s.layout.table| && s.layout.table[i].name == s.listing[k].section;
      assert image.sections[i].name == image.listing[k].section;
    }
  }

  // ---- alignment ----

  /** The boundary a line asks for, evaluated where it stands. */
  function Required(line: Line, s: PassTwo): Option<nat>
  {
    match UpdateScope(line.labels, s.global)
    case None => None
    case Some(global) =>
      match line.operation
      case Align => AlignmentBoundary(line, Scoped(s.emit, global))
      case Balign => AlignmentBoundary(line, Scoped(s.emit, global))
      case _ => None
  }

  /** The largest boundary asked for by the first n lines of a section, and 1 when none asks. */
  function MaxRequired(lines: seq<Line>, n: nat, name: string, final: PassOne, target: Target): nat
    requires n <= |lines| && AfterTwo(lines, n, final, target).Some?
  {
    if n == 0 then 1
    else
      var before := MaxRequired(lines, n - 1, name, final, target);
      var s, t := AfterTwo(lines, n - 1, final, target).value, AfterTwo(lines, n, final, target).value;
      var required := Required(lines[n - 1], s);
      if CurrentSection(t.layout).name == name && required.Some? && required.value > before then required.value else before
  }

  lemma StepAlignment(line: Line, s: PassTwo, t: PassTwo, final: PassOne, target: Target, i: nat)
    requires TableOk(s.layout.table, s.listing) && StepTwo(line, s, final, target) == Some(t) && i < |t.layout.table|
    ensures var before := if i < |s.layout.table| then s.layout.table[i].alignment else 1;
            var required := Required(line, s);
            t.layout.table[i].alignment ==
              if i == t.layout.current && required.Some? && required.value > before then required.value else before
  {
    hide UpdateScope, ApplySet, Scoped, AssembleParsed, FindSection, AlignmentBoundary, TableOk;
    if line.operation.Section? {
      SelectExtends(s.layout.table, line.operation.spec.value.0, line.operation.spec.value.1);
    }
  }

  lemma {:induction false} AlignmentSoFar(lines: seq<Line>, n: nat, final: PassOne, target: Target, i: nat)
    requires n <= |lines| && AfterTwo(lines, n, final, target).Some? && i < |AfterTwo(lines, n, final, target).value.layout.table|
    ensures var section := AfterTwo(lines, n, final, target).value.layout.table[i];
            section.alignment == MaxRequired(lines, n, section.name, final, target)
    decreases n
  {
    hide SectionsOk, StepTwo, Required, TableOk, Grown, Extended;
    if n > 0 {
      var s, t := AfterTwo(lines, n - 1, final, target).value, AfterTwo(lines, n, final, target).value;
      RunKeepsSections(lines, n - 1, final, target);
      RunKeepsSections(lines, n, final, target);
      OkParts(s);
      OkParts(t);
      StepAlignment(lines[n - 1], s, t, final, target, i);
      var middle, bytes := StepShape(lines[n - 1], s, t, final, target);
      if i < |s.layout.table| {
        AlignmentSoFar(lines, n - 1, final, target, i);
        SameName(s.layout.table, middle, t.layout.table, t.layout.current, s.pc, bytes, i);
      } else {
        NewName(s, middle, t, bytes, i);
        NothingRequired(lines, n - 1, t.layout.table[i].name, final, target);
      }
      DistinctNames(t, i);
    }
  }

  lemma OkParts(s: PassTwo)
    requires SectionsOk(s)
    ensures TableOk(s.layout.table, s.listing)
  {
  }

  lemma SameName(
      before: seq<SectionState>, middle: seq<SectionState>, after: seq<SectionState>, current: nat, pc: nat, bytes: seq<Byte>, i: nat)
    requires Extended(before, middle) && Grown(middle, after, current, pc, bytes) && i < |before|
    ensures i < |after| && after[i].name == before[i].name
  {
  }

  lemma NewName(s: PassTwo, middle: seq<SectionState>, t: PassTwo, bytes: seq<Byte>, i: nat)
    requires Extended(s.layout.table, middle) && Grown(middle, t.layout.table, t.layout.current, s.pc, bytes)
    requires |s.layout.table| <= i < |t.layout.table|
    ensures !HasName(s.layout.table, t.layout.table[i].name)
  {
  }

  lemma DistinctNames(t: PassTwo, i: nat)
    requires TableOk(t.layout.table, t.listing) && i < |t.layout.table|
    ensures CurrentSection(t.layout).name == t.layout.table[i].name <==> i == t.layout.current
  {
  }

  /** A section nobody has selected yet has had nothing asked of it. */
  lemma {:induction false} NothingRequired(lines: seq<Line>, n: nat, name: string, final: PassOne, target: Target)
    requires n <= |lines| && AfterTwo(lines, n, final, target).Some?
    requires !HasName(AfterTwo(lines, n, final, target).value.layout.table, name)
    ensures MaxRequired(lines, n, name, final, target) == 1
    decreases n
  {
    hide StepTwo, Required, Grown, Extended;
    if n > 0 {
      var s, t := AfterTwo(lines, n - 1, final, target).value, AfterTwo(lines, n, final, target).value;
      var middle, bytes := StepShape(lines[n - 1], s, t, final, target);
      forall i | 0 <= i < |s.layout.table| ensures s.layout.table[i].name != name {
        SameName(s.layout.table, middle, t.layout.table, t.layout.current, s.pc, bytes, i);
        assert t.layout.table[i].name != name;
      }
      assert t.layout.table[t.layout.current].name != name;
      NothingRequired(lines, n - 1, name, final, target);
    }
  }

  /** In every accepted program each section's alignment is the largest boundary its lines ask for. */
  lemma SectionAlignment(lines: seq<Line>, target: Target, i: nat)
    requires AssembleProgram(lines, target).Some? && i < |AssembleProgram(lines, target).value.sections|
    ensures AfterOne(lines, |lines|).Some?
    ensures var final := AfterOne(lines, |lines|).value;
            var section := AssembleProgram(lines, target).value.sections[i];
            && AfterTwo(lines, |lines|, final, target).Some?
            && section.alignment == MaxRequired(lines, |lines|, section.name, final, target)
  {
    hide AfterOne, AfterTwo, MaxRequired;
    AlignmentSoFar(lines, |lines|, AfterOne(lines, |lines|).value, target, i);
  }

  // ---- where a section's bytes end up ----

  /** The line a section's address comes from. */
  function StartLine(listing: seq<Entry>, name: string): nat
  {
    if name == ".text" then 0 else FirstLine(listing, name)
  }

  /** From its start up to line k no line of another section emitted anything. */
  predicate Contiguous(listing: seq<Entry>, name: string, k: nat)
    requires k <= |listing|
  {
    forall j :: StartLine(listing, name) <= j < k && listing[j].section != name ==> listing[j].bytes == []
  }

  /** Addresses run ahead of the section's own bytes by what others emitted in between. */
  lemma {:induction false} OthersEmitted(listing: seq<Entry>, name: string, k: nat)
    requires StartLine(listing, name) <= k < |listing|
    requires forall j :: 0 <= j < |listing| - 1 ==> listing[j].address + |listing[j].bytes| == listing[j + 1].address
    requires listing[0].address == 0
    ensures var start := listing[StartLine(listing, name)].address;
            && listing[k].address >= start + |Gathered(listing[..k], name)|
            && (listing[k].address == start + |Gathered(listing[..k], name)| <==> Contiguous(listing, name, k))
    decreases k
  {
    var f := StartLine(listing, name);
    if k == f {
      GatheredNothing(listing[..k], name);
    } else {
      OthersEmitted(listing, name, k - 1);
      assert listing[..k] == listing[..k - 1] + [listing[k - 1]];
      GatheredAppend(listing[..k - 1], listing[k - 1], name);
      assert Contiguous(listing, name, k) <==>
        Contiguous(listing, name, k - 1) && (listing[k - 1].section != name ==> listing[k - 1].bytes == []);
    }
  }

  /** Loaded at its address, a section puts the bytes of a line of its own where the listing and the labels have them
      if and only if the section is contiguous up to that line: pc counts on through all sections. */
  lemma PlacedIff(lines: seq<Line>, target: Target, i: nat, k: nat)
    requires AssembleProgram(lines, target).Some?
    requires var image := AssembleProgram(lines, target).value;
             i < |image.sections| && k < |image.listing| && image.listing[k].section == image.sections[i].name
    ensures var image := AssembleProgram(lines, target).value;
            var section, entry := image.sections[i], image.listing[k];
            var offset := |Gathered(image.listing[..k], section.name)|;
            && offset + |entry.bytes| <= |section.bytes| && section.bytes[offset..offset + |entry.bytes|] == entry.bytes
            && (section.address + offset == entry.address <==> Contiguous(image.listing, section.name, k))
  {
    hide AfterOne, AfterTwo, Gathered, TotalBytes, Contiguous;
    SectionsPartitionText(lines, target);
    var final := AfterOne(lines, |lines|).value;
    RunKeepsSections(lines, |lines|, final, target);
    var image := AssembleProgram(lines, target).value;
    var name := image.sections[i].name;
    GatheredPart(image.listing, name, k);
    StartOfSection(image.sections[0].name, image.listing, name, k);
    OthersEmitted(image.listing, name, k);
  }

  lemma StartOfSection(text: string, listing: seq<Entry>, name: string, k: nat)
    requires text == ".text" && k < |listing| && listing[k].section == name
    ensures StartLine(listing, name) <= k
    ensures name != text ==> FirstAddress(listing, name) == Some(listing[StartLine(listing, name)].address)
  {
  }

  /** The bytes of a line stand in its section behind those gathered before it. */
  lemma {:induction false} GatheredPart(listing: seq<Entry>, name: string, k: nat)
    requires k < |listing| && listing[k].section == name
    ensures var offset, all := |Gathered(listing[..k], name)|, Gathered(listing, name);
            offset + |listing[k].bytes| <= |all| && all[offset..offset + |listing[k].bytes|] == listing[k].bytes
    decreases |listing|
  {
    var n := |listing| - 1;
    if k < n {
      GatheredPart(listing[..n], name, k);
      assert listing[..n][..k] == listing[..k];
    }
  }

  function Ascii(bytes: seq<Byte>): Line
  {
    Line([], Str(false), [Text(bytes)])
  }

  function InSection(name: string, flags: string): Line
  {
    Line([], Section(Some((name, flags))), [])
  }

  lemma AsciiBytes(bytes: seq<Byte>)
    ensures StringValues([Text(bytes)], false) == Some(bytes) && StringSize([Text(bytes)], false) == Some(|bytes|)
  {
    assert [Text(bytes)][1..] == [] && bytes + [] + [] == bytes;
  }

  lemma AsciiOne(bytes: seq<Byte>, one: PassOne)
    requires one.pc + |bytes| < 0x1_0000_0000_0000_0000
    ensures StepOne(Ascii(bytes), one) == Some(one.(pc := one.pc + |bytes|))
  {
    hide Scoped, StringSize;
    AsciiBytes(bytes);
  }

  lemma AsciiTwo(bytes: seq<Byte>, s: PassTwo, final: PassOne, target: Target)
    ensures StepTwo(Ascii(bytes), s, final, target) ==
            Some(Listed(s.(layout := Opened(s.layout, s.pc)), bytes).(
                   text := s.text + bytes, pc := s.pc + |bytes|, layout := Filled(Opened(s.layout, s.pc), bytes, None)))
  {
    hide Scoped, StringValues, Opened;
    AsciiBytes(bytes);
  }

  lemma SectionSteps(name: string, flags: string, one: PassOne, two: PassTwo, final: PassOne, target: Target)
    requires one.pc < 0x1_0000_0000_0000_0000
    requires SelectSection(one.sections, name, flags).Some? && SelectSection(two.layout.table, name, flags).Some?
    ensures StepOne(InSection(name, flags), one) == Some(one.(sections := SelectSection(one.sections, name, flags).value.0))
    ensures var (table, current) := SelectSection(two.layout.table, name, flags).value;
            StepTwo(InSection(name, flags), two, final, target) ==
              Some(Listed(two.(layout := Opened(RawLayout(table, current), two.pc)), []))
  {
    hide Scoped, SelectSection, Opened;
  }

  lemma SelectNew(table: seq<SectionState>, name: string, flags: string)
    requires !HasName(table, name)
    ensures SelectSection(table, name, flags) == Some((table + [SectionState(name, flags, None, 1, [])], |table|))
  {
  }

  lemma SelectFirst(table: seq<SectionState>, name: string, flags: string)
    requires |table| > 0 && table[0].name == name && table[0].flags == flags
    ensures SelectSection(table, name, flags) == Some((table, 0))
  {
  }

  lemma FiveSteps(lines: seq<Line>, ones: seq<PassOne>, twos: seq<PassTwo>, target: Target)
    requires |lines| == 5 && |ones| == |twos| == 6 && ones[0] == START_ONE && twos[0] == StartTwo(ones[5])
    requires forall i :: 0 <= i < 5 ==>
               StepOne(lines[i], ones[i]) == Some(ones[i + 1]) && StepTwo(lines[i], twos[i], ones[5], target) == Some(twos[i + 1])
    ensures AfterOne(lines, 5) == Some(ones[5]) && AfterTwo(lines, 5, ones[5], target) == Some(twos[5])
  {
    hide StepOne, StepTwo, StartTwo;
    assert AfterOne(lines, 1) == Some(ones[1]) && AfterTwo(lines, 1, ones[5], target) == Some(twos[1]);
    assert AfterOne(lines, 2) == Some(ones[2]) && AfterTwo(lines, 2, ones[5], target) == Some(twos[2]);
    assert AfterOne(lines, 3) == Some(ones[3]) && AfterTwo(lines, 3, ones[5], target) == Some(twos[3]);
    assert AfterOne(lines, 4) == Some(ones[4]) && AfterTwo(lines, 4, ones[5], target) == Some(twos[4]);
  }

  /** Text that is left for another section and taken up again: the last line is listed behind all the others, but
      stands in the image of .text right behind the first. */
  lemma InterleavedSections(a: seq<Byte>, b: seq<Byte>, c: seq<Byte>, target: Target)
    requires |a| + |b| + |c| < 0x1_0000_0000_0000_0000
    ensures var lines := [Ascii(a), InSection(".data", "aw"), Ascii(b), InSection(".text", "ax"), Ascii(c)];
            && AssembleProgram(lines, target).Some?
            && var image := AssembleProgram(lines, target).value;
               |image.listing| == 5 && image.listing[4].address == |a| + |b|
               && |image.sections| == 2 && image.sections[0].address == 0 && image.sections[0].bytes == a + c
  {
    hide StepOne, StepTwo, SelectSection;
    var lines := [Ascii(a), InSection(".data", "aw"), Ascii(b), InSection(".text", "ax"), Ascii(c)];
    var one1 := START_ONE.(pc := |a|);
    AsciiOne(a, START_ONE);
    SelectNew(DEFAULT_SECTIONS, ".data", "aw");
    var one2 := one1.(sections := DEFAULT_SECTIONS + [SectionState(".data", "aw", None, 1, [])]);
    var one3 := one2.(pc := |a| + |b|);
    AsciiOne(b, one2);
    SelectFirst(one3.sections, ".text", "ax");
    var final := one3.(pc := |a| + |b| + |c|);
    AsciiOne(c, one3);
    var s0 := StartTwo(final);
    AsciiTwo(a, s0, final, target);
    var s1 := StepTwo(lines[0], s0, final, target).value;
    assert CurrentSection(s0.layout).bytes + a == a;
    assert s1.layout.table == [SectionState(".text", "ax", Some(0), 1, a)];
    SelectNew(s1.layout.table, ".data", "aw");
    SectionSteps(".data", "aw", one1, s1, final, target);
    var s2 := StepTwo(lines[1], s1, final, target).value;
    AsciiTwo(b, s2, final, target);
    var s3 := StepTwo(lines[2], s2, final, target).value;
    SelectFirst(s3.layout.table, ".text", "ax");
    SectionSteps(".text", "ax", one3, s3, final, target);
    var s4 := StepTwo(lines[3], s3, final, target).value;
    AsciiTwo(c, s4, final, target);
    var s5 := StepTwo(lines[4], s4, final, target).value;
    FiveSteps(lines, [START_ONE, one1, one2, one3, one3, final], [s0, s1, s2, s3, s4, s5], target);
  }
}
