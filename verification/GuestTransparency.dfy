/** Breakpoints are invisible to the program: its view of RAM is RAM with every
    armed word replaced by the word the monitor saved. */
module GuestTransparency {
  import opened Bytes
  import opened Options
  import opened GuestState

  // ---- the program's view ----

  /** The saved original of a word that currently holds a monitor EBREAK. */
  function ArmedWord(s: State, word: int): Option<Word32>
    requires WellFormed(s)
  {
    if TemporaryAt(s, word) then Some(s.temporary.originalWord)
    else match PermanentAt(s, word)
      case Some(slot) => if slot == s.stepped then None else Some(s.permanent[slot].originalWord)
      case None => None
  }

  function VisibleWord(s: State, word: int): Word32
    requires WellFormed(s) && ValidWordAddress(word)
  {
    match ArmedWord(s, word)
    case Some(original) => original
    case None => WordAt(s.ram, word)
  }

  predicate InRam(address: int)
  {
    RAM_START <= address < RAM_END
  }

  lemma WordOfValid(address: int)
    requires InRam(address)
    ensures ValidWordAddress(WordOf(address)) && 0 <= address - WordOf(address) < 4
  {
  }

  function ViewByte(s: State, address: int): Byte
    requires WellFormed(s) && InRam(address)
  {
    WordOfValid(address);
    ByteOf(VisibleWord(s, WordOf(address)), address - WordOf(address))
  }

  /** RAM as the program sees it. */
  function View(s: State): (v: seq<Byte>)
    requires WellFormed(s)
    ensures |v| == RAM_SIZE
    ensures forall i :: 0 <= i < RAM_SIZE ==> v[i] == ViewByte(s, RAM_START + i)
  {
    seq<Byte>(RAM_SIZE, i requires 0 <= i < RAM_SIZE => ViewByte(s, RAM_START + i))
  }

  // ---- the invariant ----

  ghost predicate SlotsOk(table: seq<Breakpoint>)
  {
    (forall i :: 0 <= i < |table| && table[i].enabled ==> ValidWordAddress(table[i].address))
    && forall i, j :: 0 <= i < j < |table| && table[i].enabled && table[j].enabled ==>
         table[i].address != table[j].address
  }

  /** Every armed slot's word is EBREAK; the slot being stepped holds its original. */
  ghost predicate SlotsPlanted(s: State)
    requires WellFormed(s) && SlotsOk(s.permanent)
  {
    forall i :: 0 <= i < SLOTS && s.permanent[i].enabled ==>
      WordAt(s.ram, s.permanent[i].address) == if i == s.stepped then s.permanent[i].originalWord else EBREAK_WORD
  }

  ghost predicate Coherent(s: State)
  {
    && WellFormed(s)
    && SlotsOk(s.permanent)
    && SlotsPlanted(s)
    && (s.stepped != NO_SLOT ==> s.permanent[s.stepped].enabled)
    && (s.temporary.enabled ==>
          ValidWordAddress(s.temporary.address) && PermanentAt(s, s.temporary.address).None?
          && WordAt(s.ram, s.temporary.address) == EBREAK_WORD)
    && (s.undo.valid ==> !TouchesBreakpoint(s, s.undo.address, |s.undo.edited|))
    && (s.control == Monitor ==> !s.temporary.enabled && s.stepped == NO_SLOT)
  }

  // ---- words and bytes ----

  lemma StoreWordEffect(ram: seq<Byte>, address: int, word: Word32, other: int)
    requires |ram| == RAM_SIZE && ValidWordAddress(address) && ValidWordAddress(other)
    ensures WordAt(StoreWord(ram, address, word), other) == if other == address then word else WordAt(ram, other)
  {
    var r := StoreWord(ram, address, word);
    var i, k := other - RAM_START, address - RAM_START;
    assert other == address || other + 4 <= address || address + 4 <= other;
    assert r == ram[..k] + WordBytes(word) + ram[k + 4..];
    if other == address {
      assert r[i] == ByteOf(word, 0) && r[i + 1] == ByteOf(word, 1) && r[i + 2] == ByteOf(word, 2) && r[i + 3] == ByteOf(word, 3);
      ComposeBytes(word);
    }
  }

  lemma ComposeBytes(word: Word32)
    ensures Compose(ByteOf(word, 0), ByteOf(word, 1), ByteOf(word, 2), ByteOf(word, 3)) == word
  {
    var a: int := word / 0x100;
    var b: int := a / 0x100;
    var c: int := b / 0x100;
    assert word / 0x1_0000 == b && word / 0x100_0000 == c && c < 0x100;
  }

  /** A word is fetched from four bytes, and laid out in them, as a little-endian number. */
  lemma WordIsLittleEndian(ram: seq<Byte>, address: int, word: Word32)
    requires |ram| == RAM_SIZE && ValidWordAddress(address)
    ensures WordAt(ram, address) == LittleEndianValue(ram[address - 0x8000_0000..address - 0x8000_0000 + 4])
    ensures WordBytes(word) == LittleEndian(word, 4)
  {
    hide Compose, LittleEndianValue, LittleEndian, ByteOf;
    FourBytes(ram[address - 0x8000_0000..address - 0x8000_0000 + 4]);
    FourBytes(WordBytes(word));
    ComposeBytes(word);
    BytesBack(WordBytes(word));
  }

  lemma FourBytes(bytes: seq<Byte>)
    requires |bytes| == 4
    ensures LittleEndianValue(bytes) == Compose(bytes[0], bytes[1], bytes[2], bytes[3])
  {
    assert bytes[1..][1..] == bytes[2..] && bytes[2..][1..] == bytes[3..] && bytes[3..] == [bytes[3]];
    assert LittleEndianValue([bytes[3]]) == bytes[3];
    assert LittleEndianValue(bytes[2..]) == bytes[2] + 0x100 * LittleEndianValue(bytes[3..]);
  }

  lemma WordAtByte(ram: seq<Byte>, address: int)
    requires |ram| == RAM_SIZE && InRam(address)
    ensures ValidWordAddress(WordOf(address)) && 0 <= address - WordOf(address) < 4
    ensures ByteOf(WordAt(ram, WordOf(address)), address - WordOf(address)) == ram[address - RAM_START]
  {
    WordOfValid(address);
    var i := WordOf(address) - RAM_START;
    BytesOfCompose(ram[i], ram[i + 1], ram[i + 2], ram[i + 3]);
  }

  lemma BytesOfCompose(b0: Byte, b1: Byte, b2: Byte, b3: Byte)
    ensures var w := Compose(b0, b1, b2, b3);
            ByteOf(w, 0) == b0 && ByteOf(w, 1) == b1 && ByteOf(w, 2) == b2 && ByteOf(w, 3) == b3
  {
    var w: int := Compose(b0, b1, b2, b3);
    var high: int := Compose(b1, b2, b3, 0);
    var top: int := Compose(b2, b3, 0, 0);
    assert w == 0x100 * high + b0 && high == 0x100 * top + b1 && top == 0x100 * b3 + b2;
    assert w / 0x100 == high && high / 0x100 == top && top / 0x100 == b3;
    assert w / 0x1_0000 == top && w / 0x100_0000 == b3;
  }

  lemma SameWords(s: State, t: State)
    requires WellFormed(s) && WellFormed(t)
    requires forall w :: ValidWordAddress(w) ==> VisibleWord(t, w) == VisibleWord(s, w)
    ensures View(t) == View(s)
  {
    forall i | 0 <= i < RAM_SIZE ensures View(t)[i] == View(s)[i] {
      WordOfValid(RAM_START + i);
    }
  }

  /** A word without a breakpoint is seen as it is. */
  lemma PlainByte(s: State, address: int)
    requires WellFormed(s) && InRam(address) && !OnBreakpoint(s, address)
    ensures ViewByte(s, address) == s.ram[address - RAM_START]
  {
    WordAtByte(s.ram, address);
  }

  lemma SlotIsUnique(table: seq<Breakpoint>, slot: nat)
    requires SlotsOk(table) && slot < |table| && table[slot].enabled
    ensures SlotFrom(table, table[slot].address, 0) == Some(slot)
  {
  }

  // ---- break and delete are invisible ----

  lemma BreakKeepsView(s: State, address: Word64)
    requires Coherent(s) && s.control == Monitor
    ensures var r := BreakTarget(s, address); Coherent(r) && View(r) == View(s)
  {
    var r := BreakTarget(s, address);
    if r != s {
      var slot := FreeFrom(s.permanent, 0).value;
      forall w | ValidWordAddress(w)
        ensures VisibleWord(r, w) == VisibleWord(s, w)
        ensures WordAt(r.ram, w) == if w == address then EBREAK_WORD else WordAt(s.ram, w)
      {
        StoreWordEffect(s.ram, address, EBREAK_WORD, w);
        LookupAfterUpdate(s.permanent, slot, r.permanent[slot], w);
      }
      SameWords(s, r);
    }
  }

  /** Filling a free slot, or emptying one, changes the lookup at its address only. */
  lemma LookupAfterUpdate(table: seq<Breakpoint>, slot: nat, b: Breakpoint, w: int)
    requires SlotsOk(table) && slot < |table|
    requires if b.enabled then !table[slot].enabled && ValidWordAddress(b.address) && SlotFrom(table, b.address, 0).None?
             else table[slot].enabled
    ensures var changed := if b.enabled then b.address else table[slot].address;
            SlotFrom(table[slot := b], w, 0) ==
              if w == changed then (if b.enabled then Some(slot) else None) else SlotFrom(table, w, 0)
    ensures SlotsOk(table[slot := b])
  {
    var next := table[slot := b];
    assert SlotsOk(next);
    var before, after := SlotFrom(table, w, 0), SlotFrom(next, w, 0);
    if after.Some? && after.value != slot {
      assert next[after.value] == table[after.value];
      SlotIsUnique(table, after.value);
    }
    if before.Some? && before.value != slot {
      assert next[before.value] == table[before.value];
      SlotIsUnique(next, before.value);
    }
    if b.enabled { SlotIsUnique(next, slot); } else { SlotIsUnique(table, slot); }
  }

  lemma DeleteKeepsView(s: State, number: nat)
    requires Coherent(s) && s.control == Monitor
    ensures var r := DeleteBreakpoint(s, number); Coherent(r) && View(r) == View(s)
  {
    var r := DeleteBreakpoint(s, number);
    if r != s {
      var slot := number - 1;
      var b := s.permanent[slot];
      SlotIsUnique(s.permanent, slot);
      forall w | ValidWordAddress(w)
        ensures VisibleWord(r, w) == VisibleWord(s, w)
        ensures WordAt(r.ram, w) == if w == b.address then b.originalWord else WordAt(s.ram, w)
      {
        StoreWordEffect(s.ram, b.address, b.originalWord, w);
        LookupAfterUpdate(s.permanent, slot, DISABLED, w);
      }
      SameWords(s, r);
    }
  }

  /** Deleting a breakpoint just set gives back RAM byte for byte, and a free slot. */
  lemma DeleteUndoesBreak(s: State, address: Word64)
    requires Coherent(s) && s.control == Monitor && BreakTarget(s, address).permanent != s.permanent
    ensures FreeFrom(s.permanent, 0).Some?
    ensures var slot := FreeFrom(s.permanent, 0).value;
            DeleteBreakpoint(BreakTarget(s, address), slot + 1)
            == s.(undo := NO_UNDO, permanent := s.permanent[slot := DISABLED])
  {
    hide WordAt, View, SlotsPlanted, SlotsOk, TouchesBreakpoint, SlotFrom, FreeFrom;
    var t := BreakTarget(s, address);
    StoreWordEffect(s.ram, address, EBREAK_WORD, address);
    StoreBack(s.ram, address, EBREAK_WORD);
  }

  /** A word overwritten and written back leaves RAM as it was. */
  lemma StoreBack(ram: seq<Byte>, address: int, word: Word32)
    requires |ram| == RAM_SIZE && ValidWordAddress(address)
    ensures StoreWord(StoreWord(ram, address, word), address, WordAt(ram, address)) == ram
  {
    var i := address - RAM_START;
    BytesOfCompose(ram[i], ram[i + 1], ram[i + 2], ram[i + 3]);
    assert WordBytes(WordAt(ram, address)) == [ram[i], ram[i + 1], ram[i + 2], ram[i + 3]] == ram[i..i + 4];
  }

  // ---- edit and undo change the view, exactly where they say ----

  /** Memory with a range of bytes replaced. */
  function Overwrite(memory: seq<Byte>, address: int, bytes: seq<Byte>): (r: seq<Byte>)
    requires |memory| == RAM_SIZE && RAM_START <= address && address + |bytes| <= RAM_END
    ensures |r| == RAM_SIZE
  {
    memory[..address - RAM_START] + bytes + memory[address - RAM_START + |bytes|..]
  }

  /** Writing bytes where no breakpoint is writes them into the view. */
  lemma PlainWrite(s: State, t: State, address: int, bytes: seq<Byte>)
    requires Coherent(s) && WellFormed(t)
    requires RAM_START <= address && address + |bytes| <= RAM_END && !TouchesBreakpoint(s, address, |bytes|)
    requires t.ram == StoreBytes(s.ram, address, bytes)
    requires t.permanent == s.permanent && t.temporary == s.temporary && t.stepped == s.stepped
    ensures View(t) == Overwrite(View(s), address, bytes)
    ensures SlotsPlanted(t)
    ensures s.temporary.enabled ==> WordAt(t.ram, s.temporary.address) == EBREAK_WORD
  {
    forall w | ValidWordAddress(w) && (PermanentAt(s, w).Some? || TemporaryAt(s, w))
      ensures WordAt(t.ram, w) == WordAt(s.ram, w)
    {
      BreakpointWordKept(s, t, address, bytes, w);
    }
    forall i | 0 <= i < SLOTS && s.permanent[i].enabled
      ensures WordAt(t.ram, s.permanent[i].address) == WordAt(s.ram, s.permanent[i].address)
    {
      SlotIsUnique(s.permanent, i);
    }
    forall i | 0 <= i < RAM_SIZE
      ensures View(t)[i] == Overwrite(View(s), address, bytes)[i]
    {
      PlainWriteByte(s, t, address, bytes, RAM_START + i);
    }
  }

  lemma PlainWriteByte(s: State, t: State, address: int, bytes: seq<Byte>, a: int)
    requires WellFormed(s) && WellFormed(t) && InRam(a)
    requires RAM_START <= address && address + |bytes| <= RAM_END && !TouchesBreakpoint(s, address, |bytes|)
    requires t.ram == StoreBytes(s.ram, address, bytes)
    requires t.permanent == s.permanent && t.temporary == s.temporary && t.stepped == s.stepped
    ensures ViewByte(t, a) == if address <= a < address + |bytes| then bytes[a - address] else ViewByte(s, a)
  {
    hide WordAt, StoreWord, ByteOf, View;
    WordOfValid(a);
    if OnBreakpoint(s, a) {
      BreakpointWordKept(s, t, address, bytes, WordOf(a));
    } else {
      assert !OnBreakpoint(t, a);
      PlainByte(s, a);
      PlainByte(t, a);
    }
  }

  lemma BreakpointWordKept(s: State, t: State, address: int, bytes: seq<Byte>, w: int)
    requires WellFormed(s) && WellFormed(t)
    requires RAM_START <= address && address + |bytes| <= RAM_END && !TouchesBreakpoint(s, address, |bytes|)
    requires t.ram == StoreBytes(s.ram, address, bytes)
    requires ValidWordAddress(w) && (PermanentAt(s, w).Some? || TemporaryAt(s, w))
    ensures WordAt(t.ram, w) == WordAt(s.ram, w)
  {
    ByteKept(s, t, address, bytes, w, 0);
    ByteKept(s, t, address, bytes, w, 1);
    ByteKept(s, t, address, bytes, w, 2);
    ByteKept(s, t, address, bytes, w, 3);
  }

  lemma ByteKept(s: State, t: State, address: int, bytes: seq<Byte>, w: int, k: nat)
    requires WellFormed(s) && WellFormed(t)
    requires RAM_START <= address && address + |bytes| <= RAM_END && !TouchesBreakpoint(s, address, |bytes|)
    requires t.ram == StoreBytes(s.ram, address, bytes)
    requires ValidWordAddress(w) && (PermanentAt(s, w).Some? || TemporaryAt(s, w)) && k < 4
    ensures t.ram[w - RAM_START + k] == s.ram[w - RAM_START + k]
  {
    assert WordOf(w + k) == w;
    assert OnBreakpoint(s, w + k);
  }

  /** Some byte of the range is one of the word's four. */
  predicate Overlaps(word: int, address: int, length: nat)
  {
    length > 0 && word < address + length && address < word + 4
  }

  /** The monitor edits RAM after a breakpoint stop, where no byte is part of a word that carries a breakpoint. */
  predicate EditAccepted(s: State, address: Word64, length: nat)
    requires WellFormed(s)
  {
    && s.context.mcause == BREAKPOINT_CAUSE && RAM_START <= address && address + length <= RAM_END
    && forall i :: 0 <= i < SLOTS && s.permanent[i].enabled ==> !Overlaps(s.permanent[i].address, address, length)
  }

  lemma TouchesIffOverlaps(s: State, address: int, length: nat)
    requires Coherent(s) && s.control == Monitor
    ensures TouchesBreakpoint(s, address, length)
       <==> exists i :: 0 <= i < SLOTS && s.permanent[i].enabled && Overlaps(s.permanent[i].address, address, length)
  {
    if TouchesBreakpoint(s, address, length) {
      var byteAddress :| address <= byteAddress < address + length && OnBreakpoint(s, byteAddress);
      var i := PermanentAt(s, WordOf(byteAddress)).value;
      assert s.permanent[i].enabled && Overlaps(s.permanent[i].address, address, length);
    }
    forall i | 0 <= i < SLOTS && s.permanent[i].enabled && Overlaps(s.permanent[i].address, address, length)
      ensures TouchesBreakpoint(s, address, length)
    {
      var word := s.permanent[i].address;
      var byteAddress := if word < address then address else word;
      WordOfValid(word);
      assert WordOf(byteAddress) == word;
      assert OnBreakpoint(s, byteAddress);
    }
  }

  /** An accepted edit replaces those bytes of the view; a refused one changes nothing. */
  lemma EditChangesView(s: State, address: Word64, edited: seq<Byte>)
    requires Coherent(s) && s.control == Monitor
    ensures var r := EditMemory(s, address, edited);
            && Coherent(r)
            && if EditAccepted(s, address, |edited|) then View(r) == Overwrite(View(s), address, edited) else r == s
  {
    hide TouchesBreakpoint, OnBreakpoint;
    var r := EditMemory(s, address, edited);
    TouchesIffOverlaps(s, address, |edited|);
    if EditAccepted(s, address, |edited|) {
      PlainWrite(s, r, address, edited);
      SameSlotsTouched(s, r, address, |edited|);
    }
  }

  lemma SameSlotsTouched(s: State, r: State, address: int, length: nat)
    requires r.permanent == s.permanent && r.temporary == s.temporary
    ensures TouchesBreakpoint(r, address, length) == TouchesBreakpoint(s, address, length)
  {
    assert forall a :: OnBreakpoint(r, a) == OnBreakpoint(s, a);
  }

  predicate UndoAccepted(s: State)
    requires WellFormed(s)
  {
    s.context.mcause == BREAKPOINT_CAUSE && s.undo.valid
    && Region(s.ram, s.undo.address, |s.undo.edited|) == s.undo.edited
  }

  lemma UndoChangesView(s: State)
    requires Coherent(s) && s.control == Monitor
    ensures var r := UndoMemory(s);
            && Coherent(r)
            && View(r) == if UndoAccepted(s) then Overwrite(View(s), s.undo.address, s.undo.original) else View(s)
  {
    var r := UndoMemory(s);
    if UndoAccepted(s) {
      PlainWrite(s, r, s.undo.address, s.undo.original);
    } else {
      assert forall w :: ValidWordAddress(w) ==> VisibleWord(r, w) == VisibleWord(s, w);
      SameWords(s, r);
    }
  }

  /** Undo straight after an accepted edit gives back the RAM and the view of before. */
  lemma UndoReversesEdit(s: State, address: Word64, edited: seq<Byte>)
    requires Coherent(s) && s.control == Monitor && EditAccepted(s, address, |edited|)
    ensures var r := UndoMemory(EditMemory(s, address, edited));
            r == s.(undo := NO_UNDO) && View(r) == View(s)
  {
    var t := EditMemory(s, address, edited);
    var i := address - RAM_START;
    assert t.ram[i..i + |edited|] == edited;
    var r := UndoMemory(t);
    assert r.ram == s.ram;
    assert forall w :: ValidWordAddress(w) ==> VisibleWord(r, w) == VisibleWord(s, w);
    SameWords(s, r);
  }

  // ---- stepping is invisible ----

  lemma InstallKeepsView(s: State, address: Word64)
    requires Coherent(s) && s.control == Target && !s.temporary.enabled
    ensures var r := InstallTemporary(s, address); r.Some? ==> Coherent(r.value) && View(r.value) == View(s)
  {
    var result := InstallTemporary(s, address);
    if result.Some? {
      var r := result.value;
      forall w | ValidWordAddress(w)
        ensures VisibleWord(r, w) == VisibleWord(s, w)
        ensures WordAt(r.ram, w) == if w == address then EBREAK_WORD else WordAt(s.ram, w)
      {
        StoreWordEffect(s.ram, address, EBREAK_WORD, w);
      }
      SameWords(s, r);
    }
  }

  lemma RestoreTemporaryKeepsView(s: State)
    requires Coherent(s) && s.control == Target
    ensures var r := RestoreTemporary(s); Coherent(r) && View(r) == View(s) && !r.temporary.enabled
  {
    var r := RestoreTemporary(s);
    if s.temporary.enabled {
      var address := s.temporary.address;
      forall w | ValidWordAddress(w)
        ensures VisibleWord(r, w) == VisibleWord(s, w)
        ensures WordAt(r.ram, w) == if w == address then s.temporary.originalWord else WordAt(s.ram, w)
      {
        StoreWordEffect(s.ram, address, s.temporary.originalWord, w);
      }
      SameWords(s, r);
      UndoStaysClear(s, r);
    }
  }

  lemma UndoStaysClear(s: State, r: State)
    requires WellFormed(s) && WellFormed(r)
    requires s.undo.valid ==> !TouchesBreakpoint(s, s.undo.address, |s.undo.edited|)
    requires r.undo == s.undo && r.permanent == s.permanent && (r.temporary == s.temporary || !r.temporary.enabled)
    ensures r.undo.valid ==> !TouchesBreakpoint(r, r.undo.address, |r.undo.edited|)
  {
    assert forall a :: OnBreakpoint(r, a) ==> OnBreakpoint(s, a);
  }

  lemma RestoreSteppedKeepsView(s: State)
    requires Coherent(s) && s.control == Target
    ensures var r := RestoreStepped(s); Coherent(r) && View(r) == View(s) && r.stepped == NO_SLOT
    ensures RestoreStepped(s).temporary == s.temporary
  {
    var r := RestoreStepped(s);
    if s.stepped != NO_SLOT {
      var b := s.permanent[s.stepped];
      SlotIsUnique(s.permanent, s.stepped);
      forall w | ValidWordAddress(w)
        ensures VisibleWord(r, w) == VisibleWord(s, w)
        ensures WordAt(r.ram, w) == if w == b.address then EBREAK_WORD else WordAt(s.ram, w)
      {
        StoreWordEffect(s.ram, b.address, EBREAK_WORD, w);
      }
      SameWords(s, r);
      UndoStaysClear(s, r);
    }
  }

  /** Lifting a permanent breakpoint for one step shows the same program. */
  lemma LiftKeepsView(s: State, slot: nat)
    requires Coherent(s) && s.control == Target && s.stepped == NO_SLOT && slot < SLOTS && s.permanent[slot].enabled
    ensures var b := s.permanent[slot];
            var r := s.(ram := StoreWord(s.ram, b.address, b.originalWord), stepped := slot);
            Coherent(r) && View(r) == View(s)
  {
    var b := s.permanent[slot];
    var r := s.(ram := StoreWord(s.ram, b.address, b.originalWord), stepped := slot);
    SlotIsUnique(s.permanent, slot);
    forall w | ValidWordAddress(w)
      ensures VisibleWord(r, w) == VisibleWord(s, w)
      ensures WordAt(r.ram, w) == if w == b.address then b.originalWord else WordAt(s.ram, w)
    {
      StoreWordEffect(s.ram, b.address, b.originalWord, w);
    }
    SameWords(s, r);
    UndoStaysClear(s, r);
  }

  /** Changing registers, the run budget or who is in control does not touch the program. */
  lemma ControlOnly(s: State, r: State)
    requires Coherent(s) && WellFormed(r)
    requires r.ram == s.ram && r.permanent == s.permanent && r.temporary == s.temporary
    requires r.stepped == s.stepped && r.undo == s.undo
    requires r.control == Monitor ==> !s.temporary.enabled && s.stepped == NO_SLOT
    ensures Coherent(r) && View(r) == View(s)
  {
    assert forall w :: ValidWordAddress(w) ==> VisibleWord(r, w) == VisibleWord(s, w);
    SameWords(s, r);
    UndoStaysClear(s, r);
  }

  /** Nothing temporary is planted. */
  predicate Settled(s: State)
  {
    !s.temporary.enabled && s.stepped == NO_SLOT
  }

  lemma PrepareKeepsView(s: State, slot: nat)
    requires Coherent(s) && Settled(s) && slot < SLOTS
    ensures var (r, ready) := PreparePermanentStep(s, slot);
            && Coherent(ResumeTarget(r)) && View(r) == View(s)
            && (!ready ==> r == s)
  {
    hide View, SlotsPlanted, TouchesBreakpoint, NextExecutionPc, StoreWord, WordAt, ValidWordAddress, SlotsOk, SlotFrom;
    ControlOnly(s, ResumeTarget(s));
    var (r, ready) := PreparePermanentStep(s, slot);
    if ready {
      var b := s.permanent[slot];
      var target := ResumeTarget(s);
      LiftKeepsView(target, slot);
      var stopPc := NextExecutionPc(s.context, s.context.pc, b.originalWord).value;
      var lifted := target.(ram := StoreWord(s.ram, b.address, b.originalWord), stepped := slot);
      if PermanentAt(lifted, stopPc).None? {
        InstallKeepsView(lifted, stopPc);
        var u := InstallTemporary(lifted, stopPc).value;
        ControlOnly(u, ResumeTarget(r));
      } else {
        ControlOnly(lifted, ResumeTarget(r));
      }
      ViewIgnoresControl(r);
    }
  }

  lemma ViewIgnoresControl(s: State)
    requires WellFormed(s)
    ensures View(ResumeTarget(s)) == View(s)
  {
    SameWords(s, ResumeTarget(s));
  }
}
