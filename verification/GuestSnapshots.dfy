/** Saving a snapshot stores the program's view; restoring brings it back. */
module GuestSnapshots {
  import opened Bytes
  import opened Options
  import opened GuestState
  import opened GuestTransparency

  // ---- what a saved snapshot holds ----

  /** The word at an address of a saved region. */
  function SavedWord(snapshot: Snapshot, address: int): Word32
    requires |snapshot.workspace| == WORKSPACE_BYTES && |snapshot.data| == DATA_BYTES
    requires InSnapshotRegion(address)
  {
    if InWorkspace(address, 4) then
      var i := address - WORKSPACE_START;
      var m := snapshot.workspace;
      Compose(m[i], m[i + 1], m[i + 2], m[i + 3])
    else
      var i := address - DATA_START;
      var m := snapshot.data;
      Compose(m[i], m[i + 1], m[i + 2], m[i + 3])
  }

  /** Saved slots lie in the saved regions, which hold their original words. */
  ghost predicate SnapshotOk(snapshot: Snapshot)
  {
    snapshot.valid ==>
      && |snapshot.workspace| == WORKSPACE_BYTES && |snapshot.data| == DATA_BYTES
      && |snapshot.breakpoints| == SLOTS && |snapshot.watchpoints| == WATCHES && |snapshot.context.x| == 32
      && SlotsOk(snapshot.breakpoints)
      && forall i :: 0 <= i < SLOTS && snapshot.breakpoints[i].enabled ==>
           InSnapshotRegion(snapshot.breakpoints[i].address)
           && SavedWord(snapshot, snapshot.breakpoints[i].address) == snapshot.breakpoints[i].originalWord
  }

  /** Every enabled breakpoint lies in a region the snapshot captures. */
  predicate Placed(s: State)
  {
    forall i :: 0 <= i < |s.permanent| && s.permanent[i].enabled ==> InSnapshotRegion(s.permanent[i].address)
  }

  /** A byte of a region, with armed words put back. */
  function PutBack(table: seq<Breakpoint>, slot: nat, address: int, byte: Byte): Byte
    requires slot <= |table|
  {
    match SlotFrom(table, WordOf(address), slot)
    case Some(j) => if 0 <= address - WordOf(address) < 4 then ByteOf(table[j].originalWord, address - WordOf(address)) else byte
    case None => byte
  }

  lemma {:induction false} CaptureEffect(table: seq<Breakpoint>, slot: nat, snapshot: Snapshot)
    requires slot <= |table| == SLOTS && |snapshot.breakpoints| == SLOTS && SlotsOk(table)
    requires |snapshot.workspace| == WORKSPACE_BYTES && |snapshot.data| == DATA_BYTES
    ensures var r := CaptureSlots(table, slot, snapshot);
            && (forall i :: 0 <= i < WORKSPACE_BYTES ==>
                  r.workspace[i] == PutBack(table, slot, WORKSPACE_START + i, snapshot.workspace[i]))
            && (forall i :: 0 <= i < DATA_BYTES ==>
                  r.data[i] == PutBack(table, slot, DATA_START + i, snapshot.data[i]))
            && (forall j :: 0 <= j < SLOTS ==>
                  r.breakpoints[j] == if j < slot then snapshot.breakpoints[j]
                                      else if table[j].enabled && InSnapshotRegion(table[j].address) then table[j] else DISABLED)
    decreases |table| - slot
  {
    hide PutBack, CaptureSlot;
    if slot < |table| {
      var next := CaptureSlot(table[slot], slot, snapshot);
      CaptureEffect(table, slot + 1, next);
      CaptureSlotEffect(table, slot, snapshot);
    } else {
      PutBackNothing(table);
    }
  }

  lemma PutBackNothing(table: seq<Breakpoint>)
    ensures forall address, byte :: PutBack(table, |table|, address, byte) == byte
  {
  }

  lemma CaptureSlotEffect(table: seq<Breakpoint>, slot: nat, snapshot: Snapshot)
    requires slot < |table| == SLOTS && |snapshot.breakpoints| == SLOTS && SlotsOk(table)
    requires |snapshot.workspace| == WORKSPACE_BYTES && |snapshot.data| == DATA_BYTES
    ensures var next := CaptureSlot(table[slot], slot, snapshot);
            && (forall i :: 0 <= i < WORKSPACE_BYTES ==>
                  PutBack(table, slot + 1, WORKSPACE_START + i, next.workspace[i])
                  == PutBack(table, slot, WORKSPACE_START + i, snapshot.workspace[i]))
            && (forall i :: 0 <= i < DATA_BYTES ==>
                  PutBack(table, slot + 1, DATA_START + i, next.data[i])
                  == PutBack(table, slot, DATA_START + i, snapshot.data[i]))
  {
    hide PutBack;
    var next := CaptureSlot(table[slot], slot, snapshot);
    forall i | 0 <= i < WORKSPACE_BYTES
      ensures PutBack(table, slot + 1, WORKSPACE_START + i, next.workspace[i])
           == PutBack(table, slot, WORKSPACE_START + i, snapshot.workspace[i])
    {
      PatchStep(table, slot, snapshot.workspace, next.workspace, WORKSPACE_START, i);
    }
    forall i | 0 <= i < DATA_BYTES
      ensures PutBack(table, slot + 1, DATA_START + i, next.data[i])
           == PutBack(table, slot, DATA_START + i, snapshot.data[i])
    {
      PatchStep(table, slot, snapshot.data, next.data, DATA_START, i);
    }
  }

  lemma PatchStep(table: seq<Breakpoint>, slot: nat, before: seq<Byte>, after: seq<Byte>, start: int, i: nat)
    requires slot < |table| && SlotsOk(table) && i < |before| == |after|
    requires (start == WORKSPACE_START && |before| == WORKSPACE_BYTES) || (start == DATA_START && |before| == DATA_BYTES)
    requires var b := table[slot];
             if b.enabled && start <= b.address && b.address + 4 <= start + |before| then
               after == Patch(before, b.address - start, b.originalWord)
             else after == before
    ensures PutBack(table, slot + 1, start + i, after[i]) == PutBack(table, slot, start + i, before[i])
  {
    hide WordOf, ByteOf;
    var b := table[slot];
    var a := start + i;
    var w := WordOf(a);
    WordInside(a, start, |before|);
    if b.enabled && b.address == w {
      var later := SlotFrom(table, w, slot + 1);
      assert later.None?;
      assert after[i] == WordBytes(b.originalWord)[a - w];
    } else if b.enabled && start <= b.address && b.address + 4 <= start + |before| {
      WordsApart(b.address, w);
    }
  }

  lemma WordInside(a: int, start: int, length: nat)
    requires start % 4 == 0 && length % 4 == 0 && start <= a < start + length
    ensures WordOf(a) % 4 == 0 && start <= WordOf(a) <= a < WordOf(a) + 4 <= start + length
  {
  }

  lemma WordsApart(v: int, w: int)
    requires v % 4 == 0 && w % 4 == 0 && v != w
    ensures v + 4 <= w || w + 4 <= v
  {
  }

  /** Saving in the monitor stores the view of both regions and the slots inside them. */
  lemma SaveStoresView(s: State)
    requires Coherent(s) && Settled(s) && s.context.mcause == BREAKPOINT_CAUSE
    ensures var snapshot := SaveSnapshot(s).snapshot;
            && snapshot.valid && snapshot.context == s.context
            && snapshot.watchpoints == s.watchpoints && snapshot.document == s.document
            && snapshot.workspace == Region(View(s), WORKSPACE_START, WORKSPACE_BYTES)
            && snapshot.data == Region(View(s), DATA_START, DATA_BYTES)
            && (forall j :: 0 <= j < SLOTS ==>
                  snapshot.breakpoints[j] == if s.permanent[j].enabled && InSnapshotRegion(s.permanent[j].address)
                                             then s.permanent[j] else DISABLED)
            && (Placed(s) ==> forall j :: 0 <= j < SLOTS && (s.permanent[j].enabled || snapshot.breakpoints[j].enabled) ==>
                  snapshot.breakpoints[j] == s.permanent[j])
  {
    hide View, Coherent, WordAt, CaptureSlots;
    assert Coherent(s);
    CoherentParts(s);
    var raw := RawSnapshot(s);
    CaptureEffect(s.permanent, 0, raw);
    var snapshot := SaveSnapshot(s).snapshot;
    forall i | 0 <= i < WORKSPACE_BYTES
      ensures snapshot.workspace[i] == View(s)[WORKSPACE_START + i - RAM_START]
    {
      PutBackIsView(s, WORKSPACE_START + i);
    }
    forall i | 0 <= i < DATA_BYTES
      ensures snapshot.data[i] == View(s)[DATA_START + i - RAM_START]
    {
      PutBackIsView(s, DATA_START + i);
    }
  }

  lemma CoherentParts(s: State)
    requires Coherent(s)
    ensures WellFormed(s) && SlotsOk(s.permanent)
  {
  }

  lemma PutBackIsView(s: State, address: int)
    requires WellFormed(s) && Settled(s) && InRam(address)
    ensures PutBack(s.permanent, 0, address, s.ram[address - RAM_START]) == ViewByte(s, address)
  {
    WordAtByte(s.ram, address);
  }

  lemma SaveKeepsInvariant(s: State)
    requires Coherent(s) && Settled(s) && SnapshotOk(s.snapshot)
    ensures var r := SaveSnapshot(s); Coherent(r) && View(r) == View(s) && SnapshotOk(r.snapshot)
  {
    var r := SaveSnapshot(s);
    ControlOnly(s, r);
    if s.context.mcause == BREAKPOINT_CAUSE {
      SaveStoresView(s);
      SavedSlotsOk(s, r.snapshot);
    }
  }

  lemma SavedSlotsOk(s: State, snapshot: Snapshot)
    requires Coherent(s) && Settled(s) && snapshot.valid && WellFormed(s.(snapshot := snapshot))
    requires snapshot.workspace == Region(View(s), WORKSPACE_START, WORKSPACE_BYTES)
    requires snapshot.data == Region(View(s), DATA_START, DATA_BYTES)
    requires forall j :: 0 <= j < SLOTS ==>
               snapshot.breakpoints[j] == if s.permanent[j].enabled && InSnapshotRegion(s.permanent[j].address)
                                          then s.permanent[j] else DISABLED
    ensures SnapshotOk(snapshot)
  {
    forall i | 0 <= i < SLOTS && snapshot.breakpoints[i].enabled
      ensures SavedWord(snapshot, snapshot.breakpoints[i].address) == snapshot.breakpoints[i].originalWord
    {
      assert snapshot.breakpoints[i] == s.permanent[i];
      SavedWordIsOriginal(s, snapshot, i);
    }
  }

  lemma SavedWordIsOriginal(s: State, snapshot: Snapshot, i: nat)
    requires Coherent(s) && Settled(s) && i < SLOTS && s.permanent[i].enabled && InSnapshotRegion(s.permanent[i].address)
    requires snapshot.workspace == Region(View(s), WORKSPACE_START, WORKSPACE_BYTES)
    requires snapshot.data == Region(View(s), DATA_START, DATA_BYTES)
    ensures SavedWord(snapshot, s.permanent[i].address) == s.permanent[i].originalWord
  {
    hide SlotsPlanted, WordAt, TouchesBreakpoint, View, SavedWord, ByteOf, Compose;
    var w := s.permanent[i].address;
    SlotIsUnique(s.permanent, i);
    ViewOfWord(s, w);
    SavedWordOfView(View(s), snapshot, w);
    ComposeBytes(s.permanent[i].originalWord);
  }

  lemma SavedWordOfView(v: seq<Byte>, snapshot: Snapshot, w: int)
    requires |v| == RAM_SIZE && InSnapshotRegion(w)
    requires snapshot.workspace == Region(v, WORKSPACE_START, WORKSPACE_BYTES)
    requires snapshot.data == Region(v, DATA_START, DATA_BYTES)
    ensures var i := w - RAM_START; SavedWord(snapshot, w) == Compose(v[i], v[i + 1], v[i + 2], v[i + 3])
  {
    hide Compose;
  }

  lemma ViewOfWord(s: State, w: int)
    requires WellFormed(s) && ValidWordAddress(w)
    ensures var v, i := View(s), w - RAM_START;
            && v[i] == ByteOf(VisibleWord(s, w), 0) && v[i + 1] == ByteOf(VisibleWord(s, w), 1)
            && v[i + 2] == ByteOf(VisibleWord(s, w), 2) && v[i + 3] == ByteOf(VisibleWord(s, w), 3)
  {
    hide VisibleWord, ByteOf;
    assert WordOf(w) == w && WordOf(w + 1) == w && WordOf(w + 2) == w && WordOf(w + 3) == w;
    assert View(s)[w - RAM_START] == ViewByte(s, RAM_START + (w - RAM_START));
    assert View(s)[w + 1 - RAM_START] == ViewByte(s, RAM_START + (w + 1 - RAM_START));
    assert View(s)[w + 2 - RAM_START] == ViewByte(s, RAM_START + (w + 2 - RAM_START));
    assert View(s)[w + 3 - RAM_START] == ViewByte(s, RAM_START + (w + 3 - RAM_START));
  }

  // ---- restoring ----

  lemma {:induction false} ArmEffect(ram: seq<Byte>, table: seq<Breakpoint>, slot: nat, w: int)
    requires |ram| == RAM_SIZE && slot <= |table| && SlotsOk(table) && ValidWordAddress(w)
    ensures WordAt(ArmSlots(ram, table, slot), w) == if SlotFrom(table, w, slot).Some? then EBREAK_WORD else WordAt(ram, w)
    decreases |table| - slot
  {
    if slot < |table| {
      var b := table[slot];
      if b.enabled {
        StoreWordEffect(ram, b.address, EBREAK_WORD, w);
        ArmEffect(StoreWord(ram, b.address, EBREAK_WORD), table, slot + 1, w);
      } else {
        ArmEffect(ram, table, slot + 1, w);
      }
    }
  }

  lemma ViewWord(s: State, w: int)
    requires WellFormed(s) && ValidWordAddress(w)
    ensures WordAt(View(s), w) == VisibleWord(s, w)
  {
    hide VisibleWord, View, ByteOf, Compose;
    ViewOfWord(s, w);
    ComposeBytes(VisibleWord(s, w));
  }

  lemma SameMemory(a: seq<Byte>, b: seq<Byte>)
    requires |a| == |b| == RAM_SIZE && forall w :: ValidWordAddress(w) ==> WordAt(a, w) == WordAt(b, w)
    ensures a == b
  {
    hide WordAt;
    forall i | 0 <= i < RAM_SIZE ensures a[i] == b[i] {
      WordAtByte(a, RAM_START + i);
      WordAtByte(b, RAM_START + i);
    }
  }

  /** While the monitor has control RAM is what the program sees, with an EBREAK at every enabled slot. */
  lemma RamIsArmedView(s: State)
    requires Coherent(s) && Settled(s)
    ensures s.ram == ArmSlots(View(s), s.permanent, 0)
  {
    hide View, ArmSlots, WordAt;
    forall w | ValidWordAddress(w) ensures WordAt(s.ram, w) == WordAt(ArmSlots(View(s), s.permanent, 0), w) {
      ViewWord(s, w);
      ArmEffect(View(s), s.permanent, 0, w);
    }
    SameMemory(s.ram, ArmSlots(View(s), s.permanent, 0));
  }

  /** Memory with the two saved regions copied in. */
  function WithRegions(memory: seq<Byte>, snapshot: Snapshot): (r: seq<Byte>)
    requires |memory| == RAM_SIZE && |snapshot.workspace| == WORKSPACE_BYTES && |snapshot.data| == DATA_BYTES
    ensures |r| == RAM_SIZE
  {
    Overwrite(Overwrite(memory, WORKSPACE_START, snapshot.workspace), DATA_START, snapshot.data)
  }

  lemma CopiedWord(ram: seq<Byte>, snapshot: Snapshot, w: int)
    requires |ram| == RAM_SIZE && |snapshot.workspace| == WORKSPACE_BYTES && |snapshot.data| == DATA_BYTES
    requires InSnapshotRegion(w) && ValidWordAddress(w)
    ensures WordAt(WithRegions(ram, snapshot), w) == SavedWord(snapshot, w)
  {
    var r, i := WithRegions(ram, snapshot), w - RAM_START;
    if InWorkspace(w, 4) {
      var k := w - WORKSPACE_START;
      assert r[i] == snapshot.workspace[k] && r[i + 1] == snapshot.workspace[k + 1]
        && r[i + 2] == snapshot.workspace[k + 2] && r[i + 3] == snapshot.workspace[k + 3];
    } else {
      var k := w - DATA_START;
      assert r[i] == snapshot.data[k] && r[i + 1] == snapshot.data[k + 1]
        && r[i + 2] == snapshot.data[k + 2] && r[i + 3] == snapshot.data[k + 3];
    }
  }

  /** After a restore the program sees exactly RAM with the saved regions copied in. */
  lemma RestoredWord(s: State, w: int)
    requires Coherent(s) && SnapshotOk(s.snapshot) && s.snapshot.valid && ValidWordAddress(w)
    ensures var r := RestoreSnapshot(s);
            && VisibleWord(r, w) == WordAt(WithRegions(s.ram, s.snapshot), w)
            && WordAt(r.ram, w) == if PermanentAt(r, w).Some? then EBREAK_WORD else WordAt(WithRegions(s.ram, s.snapshot), w)
  {
    hide WordAt, SavedWord;
    ArmEffect(WithRegions(s.ram, s.snapshot), s.snapshot.breakpoints, 0, w);
    var slot := SlotFrom(s.snapshot.breakpoints, w, 0);
    if slot.Some? { CopiedWord(s.ram, s.snapshot, w); }
  }

  lemma RestoreView(s: State)
    requires Coherent(s) && SnapshotOk(s.snapshot) && s.snapshot.valid
    ensures View(RestoreSnapshot(s)) == WithRegions(s.ram, s.snapshot)
  {
    hide Coherent, SnapshotOk, WordAt, RestoreSnapshot;
    CoherentParts(s);
    var r := RestoreSnapshot(s);
    forall i | 0 <= i < RAM_SIZE ensures View(r)[i] == WithRegions(s.ram, s.snapshot)[i] {
      var a := RAM_START + i;
      WordAtByte(WithRegions(s.ram, s.snapshot), a);
      RestoredWord(s, WordOf(a));
    }
  }

  /** What a restore does to what the program sees: the EBREAK of every enabled slot becomes part of the program,
      and then the saved regions are copied in. */
  lemma RestoreEffect(s: State)
    requires Coherent(s) && Settled(s) && SnapshotOk(s.snapshot) && s.snapshot.valid
    ensures View(RestoreSnapshot(s)) == WithRegions(ArmSlots(View(s), s.permanent, 0), s.snapshot)
  {
    hide View, RestoreSnapshot, ArmSlots, Coherent;
    RestoreView(s);
    RamIsArmedView(s);
  }

  predicate OutsideRegions(address: int)
  {
    InRam(address) && !InWorkspace(address, 1) && !InData(address, 1)
  }

  /** With every breakpoint placed, RAM outside the regions is what the program sees. */
  lemma PlainOutside(s: State, address: int)
    requires Coherent(s) && Settled(s) && Placed(s) && OutsideRegions(address)
    ensures ViewByte(s, address) == s.ram[address - RAM_START]
  {
    hide WordAt, SlotsPlanted, TouchesBreakpoint;
    PlainByte(s, address);
  }

  /** Restoring keeps the invariant and leaves nothing temporary; with every current breakpoint placed,
      the view is the old one with the saved regions copied in. */
  lemma RestoreKeepsInvariant(s: State)
    requires Coherent(s) && Settled(s) && SnapshotOk(s.snapshot) && s.snapshot.valid && s.control == Monitor
    ensures var r := RestoreSnapshot(s);
            && Coherent(r) && Settled(r) && r.undo == NO_UNDO
            && r.permanent == s.snapshot.breakpoints && r.context == s.snapshot.context
            && r.watchpoints == s.snapshot.watchpoints && r.document == s.snapshot.document
            && (Placed(s) ==> View(r) == WithRegions(View(s), s.snapshot))
  {
    hide WordAt, View, ArmSlots, StoreWord;
    var r := RestoreSnapshot(s);
    forall i | 0 <= i < SLOTS && r.permanent[i].enabled
      ensures WordAt(r.ram, r.permanent[i].address) == EBREAK_WORD
    {
      SlotIsUnique(r.permanent, i);
      RestoredWord(s, r.permanent[i].address);
    }
    RestoreView(s);
    if Placed(s) { PlacedRegions(s); }
  }

  lemma PlacedRegions(s: State)
    requires Coherent(s) && Settled(s) && Placed(s) && WellFormed(s) && s.snapshot.valid
    ensures WithRegions(s.ram, s.snapshot) == WithRegions(View(s), s.snapshot)
  {
    hide Coherent, Placed, WithRegions, WellFormed;
    CoherentParts(s);
    SnapshotSizes(s);
    forall i | 0 <= i < RAM_SIZE && OutsideRegions(RAM_START + i) ensures s.ram[i] == View(s)[i] {
      PlainOutside(s, RAM_START + i);
    }
    SameOutside(s.ram, View(s), s.snapshot);
  }

  lemma SnapshotSizes(s: State)
    requires WellFormed(s) && s.snapshot.valid
    ensures |s.ram| == RAM_SIZE && |s.snapshot.workspace| == WORKSPACE_BYTES && |s.snapshot.data| == DATA_BYTES
  {
  }

  /** Memories that agree outside the regions are the same once the regions are copied in. */
  lemma SameOutside(a: seq<Byte>, b: seq<Byte>, snapshot: Snapshot)
    requires |a| == |b| == RAM_SIZE && |snapshot.workspace| == WORKSPACE_BYTES && |snapshot.data| == DATA_BYTES
    requires forall i :: 0 <= i < RAM_SIZE && OutsideRegions(RAM_START + i) ==> a[i] == b[i]
    ensures WithRegions(a, snapshot) == WithRegions(b, snapshot)
  {
    assert WithRegions(a, snapshot) == WithRegions(b, snapshot);
  }

  lemma RestoredByte(s: State, a: int)
    requires Coherent(s) && Settled(s) && SnapshotOk(s.snapshot) && s.snapshot.valid && s.control == Monitor && OutsideRegions(a)
    ensures ViewByte(RestoreSnapshot(s), a) == s.ram[a - RAM_START]
  {
    hide View, ArmSlots, StoreWord, RestoreSnapshot, VisibleWord;
    WordAtByte(WithRegions(s.ram, s.snapshot), a);
    RestoredWord(s, WordOf(a));
  }

  /** Outside the regions a restore keeps the view exactly when each enabled breakpoint there
      replaced an EBREAK of the program's own: any other one leaves its EBREAK behind. */
  lemma RestoreOutsideRegions(s: State)
    requires Coherent(s) && Settled(s) && SnapshotOk(s.snapshot) && s.snapshot.valid && s.control == Monitor
    ensures (forall a :: OutsideRegions(a) ==> ViewByte(RestoreSnapshot(s), a) == ViewByte(s, a))
       <==> (forall i :: 0 <= i < SLOTS && s.permanent[i].enabled && !InSnapshotRegion(s.permanent[i].address) ==>
               s.permanent[i].originalWord == EBREAK_WORD)
  {
    hide Coherent, Settled, SnapshotOk, View, ViewByte, RestoreSnapshot;
    CoherentParts(s);
    var r := RestoreSnapshot(s);
    forall a | OutsideRegions(a) ensures ViewByte(r, a) == s.ram[a - RAM_START] { RestoredByte(s, a); }
    if forall a :: OutsideRegions(a) ==> ViewByte(r, a) == ViewByte(s, a) {
      forall i | 0 <= i < SLOTS && s.permanent[i].enabled && !InSnapshotRegion(s.permanent[i].address)
        ensures s.permanent[i].originalWord == EBREAK_WORD
      {
        StrandedWord(s, i);
      }
    }
    if forall i :: 0 <= i < SLOTS && s.permanent[i].enabled && !InSnapshotRegion(s.permanent[i].address) ==>
         s.permanent[i].originalWord == EBREAK_WORD {
      forall a | OutsideRegions(a) ensures ViewByte(s, a) == s.ram[a - RAM_START] {
        UnstrandedByte(s, a);
      }
    }
  }

  lemma UnstrandedByte(s: State, a: int)
    requires Coherent(s) && Settled(s) && OutsideRegions(a)
    requires forall i :: 0 <= i < SLOTS && s.permanent[i].enabled && !InSnapshotRegion(s.permanent[i].address) ==>
               s.permanent[i].originalWord == EBREAK_WORD
    ensures ViewByte(s, a) == s.ram[a - RAM_START]
  {
    hide WordAt, TouchesBreakpoint;
    WordAtByte(s.ram, a);
    var slot := PermanentAt(s, WordOf(a));
    if slot.Some? { assert !InSnapshotRegion(WordOf(a)); }
  }

  lemma StrandedWord(s: State, i: nat)
    requires Coherent(s) && Settled(s) && i < SLOTS && s.permanent[i].enabled
    requires !InSnapshotRegion(s.permanent[i].address)
    requires forall a :: OutsideRegions(a) ==> ViewByte(s, a) == s.ram[a - RAM_START]
    ensures s.permanent[i].originalWord == EBREAK_WORD
  {
    hide TouchesBreakpoint, WordAt;
    var w := s.permanent[i].address;
    SlotIsUnique(s.permanent, i);
    var original := s.permanent[i].originalWord;
    ComposeBytes(original);
    ComposeBytes(EBREAK_WORD);
    StrandedByte(s, w, original, 0);
    StrandedByte(s, w, original, 1);
    StrandedByte(s, w, original, 2);
    StrandedByte(s, w, original, 3);
  }

  lemma StrandedByte(s: State, w: int, original: Word32, k: nat)
    requires WellFormed(s) && ValidWordAddress(w) && !InSnapshotRegion(w) && k < 4
    requires VisibleWord(s, w) == original && WordAt(s.ram, w) == EBREAK_WORD
    requires forall a :: OutsideRegions(a) ==> ViewByte(s, a) == s.ram[a - RAM_START]
    ensures ByteOf(original, k) == ByteOf(EBREAK_WORD, k)
  {
    hide WordAt, VisibleWord, ByteOf;
    assert WordOf(w + k) == w && OutsideRegions(w + k);
    WordAtByte(s.ram, w + k);
    assert ViewByte(s, w + k) == s.ram[w + k - RAM_START];
  }
}
