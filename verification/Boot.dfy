/**
 Bringing paging up: reserving the kernel's frames from the memory map, and
 building the identity map whose extent grows with the tables it needs. Paging
 is off here, so tables are written at their physical addresses.
 */
module Boot {
  import opened BitSets
  import opened Options
  import opened PageFrames
  import opened PageTables
  import opened Mmus

  /** Frames below 1 MiB are never handed out. */
  const LOW_FRAMES: nat := 0x100
  const VGA_PAGE: nat := 0xB8

  /** The frames from 1 MiB through the one that holds the kernel's end. */
  ghost function KernelFrames(kernelEnd: nat): set<nat> {
    if kernelEnd < 0x10_0000 then {} else Range(LOW_FRAMES, kernelEnd / 0x1000 + 1 - LOW_FRAMES)
  }

  /** The constructor's work; it panics when a kernel frame is not available memory. */
  method ReserveKernel(m: Mmu, regions: seq<Region>, kernelEnd: nat) returns (ok: bool)
    requires m.frames.Valid() && m.frames.Usable() == {} && m.frames.Used() == {} && m.frames.lastAllocFrame == 0
    requires forall r :: r in regions ==> r.addr / 0x1000 + r.len / 0x1000 <= FRAMES
    requires kernelEnd < SELF_MAP_BASE
    modifies m.frames.Repr()
    ensures m.frames.Valid() && m.frames.lastAllocFrame == 0
    ensures ok <==> KernelFrames(kernelEnd) <= AvailableFrames(regions)
    ensures m.frames.Usable() == AvailableFrames(regions) - Range(0, LOW_FRAMES)
    ensures ok ==> m.frames.Used() == KernelFrames(kernelEnd)
  {
    m.frames.LoadMemoryMap(regions);
    HideLowFrames(m);
    ok := RequestKernel(m, kernelEnd);
    assert KernelFrames(kernelEnd) !! Range(0, LOW_FRAMES);
  }

  method HideLowFrames(m: Mmu)
    requires m.frames.Valid()
    modifies m.frames.usable, m.frames.usable.bits
    ensures m.frames.Valid()
    ensures m.frames.Usable() == old(m.frames.Usable()) - Range(0, LOW_FRAMES)
  {
    var i := 0;
    while i < 0x10_0000
      invariant i % 0x1000 == 0 && i <= 0x10_0000
      invariant m.frames.Valid() && m.frames.Usable() == old(m.frames.Usable()) - Range(0, i / 0x1000)
    {
      m.frames.MarkFrameUsable(i, false);
      assert Range(0, i / 0x1000 + 1) == Range(0, i / 0x1000) + {i / 0x1000};
      i := i + 0x1000;
    }
  }

  method RequestKernel(m: Mmu, kernelEnd: nat) returns (ok: bool)
    requires m.frames.Valid() && m.frames.Used() == {} && kernelEnd < SELF_MAP_BASE
    modifies m.frames.used, m.frames.used.bits
    ensures m.frames.Valid()
    ensures ok <==> KernelFrames(kernelEnd) <= m.frames.Usable()
    ensures ok ==> m.frames.Used() == KernelFrames(kernelEnd)
  {
    var i := 0x10_0000;
    while i <= kernelEnd
      invariant i % 0x1000 == 0 && 0x10_0000 <= i
      invariant 0x10_0000 < i ==> i <= kernelEnd + 0x1000
      invariant m.frames.Valid() && m.frames.Used() == Range(LOW_FRAMES, i / 0x1000 - LOW_FRAMES)
      invariant m.frames.Used() <= m.frames.Usable()
    {
      ghost var used := m.frames.Used();
      ok := m.frames.RequestFrameIndex(FrameToIndex(i));
      assert i / 0x1000 in KernelFrames(kernelEnd);
      if !ok {
        return;
      }
      assert Range(LOW_FRAMES, i / 0x1000 + 1 - LOW_FRAMES) == used + {i / 0x1000};
      i := i + 0x1000;
    }
    ok := true;
  }

  /** A free frame for the directory. */
  method CreateDirectory(m: Mmu) returns (ok: bool)
    requires m.frames.Valid()
    requires LowestNext(m.frames.Free(), FrameToIndex(m.frames.lastAllocFrame))
    modifies m.Repr()
    ensures m.frames.Valid() && m.frames.Usable() == old(m.frames.Usable())
    ensures ok <==> old(m.frames.Free()) != {}
    ensures !ok ==> m.frames.Free() == {}
    ensures ok ==>
              && m.pd < FRAMES && m.frames.lastAllocFrame == m.pd * 0x1000
              && m.pd in old(m.frames.Free())
              && m.frames.Used() == old(m.frames.Used()) + {m.pd}
              && (forall f :: f in m.frames.Usable() && f !in m.frames.Used() ==> m.pd < f)
  {
    ghost var free, start := m.frames.Free(), FrameToIndex(m.frames.lastAllocFrame);
    var frame := m.NewFrame();
    if frame.None? {
      return false;
    }
    NextIsLowest(free, start, FrameToIndex(frame.value));
    assert forall f :: f in m.frames.Usable() && f !in m.frames.Used() ==> f in free;
    m.pd := FrameToIndex(frame.value);
    ok := true;
  }

  /** Next-fit started at `start` has everything still free ahead of it. */
  ghost predicate LowestNext(free: set<nat>, start: nat) {
    forall f :: f in free ==> start <= f
  }

  lemma NextIsLowest(free: set<nat>, start: nat, w: nat)
    requires LowestNext(free, start) && IsNextFit(free, 1, start, w)
    ensures w in free && forall f :: f in free ==> w <= f
  {
    assert w in Range(w, 1);
    forall f | f in free
      ensures w <= f
    {
      assert Range(f, 1) == {f};
      assert Window(free, f, 1);
    }
  }

  // ----- The identity map under construction -----

  /** The entry of identity page `p`; pages up to `readOnly` are not writable, except the VGA page. */
  function IdentityEntry(p: nat, readOnly: nat): (e: Word)
    requires p < FRAMES
  {
    var e := SetPresent(PageEntry(p * 0x1000));
    if p > readOnly || p == VGA_PAGE then SetReadWrite(e) else e
  }

  function TableEntry(frame: nat): (e: Word)
    requires frame < FRAMES
  {
    SetReadWrite(SetPresent(PageEntry(frame * 0x1000)))
  }

  lemma EntryValues(p: nat, readOnly: nat)
    requires p < FRAMES
    ensures IdentityEntry(p, readOnly) == p * 0x1000 + (if p > readOnly || p == VGA_PAGE then 3 else 1)
    ensures TableEntry(p) == p * 0x1000 + 3
  {
    FrameArithmetic(p, 0);
  }

  lemma EntryMeaning(p: nat, readOnly: nat)
    requires p < FRAMES
    ensures FrameOf(IdentityEntry(p, readOnly)) == p && Present(IdentityEntry(p, readOnly))
    ensures FrameOf(TableEntry(p)) == p && Present(TableEntry(p))
  {
    EntryValues(p, readOnly);
    FrameArithmetic(p, 1);
    FrameArithmetic(p, 3);
  }

  function Max(a: nat, b: nat): nat {
    if a < b then b else a
  }

  /** The tables built so far sit in ascending frames above the directory. */
  ghost predicate Ascending(tables: seq<nat>, pd: nat) {
    forall i, j :: InOrder(tables, pd, i, j)
  }

  ghost predicate InOrder(tables: seq<nat>, pd: nat, i: int, j: int) {
    0 <= i <= j < |tables| ==> pd < tables[i] < WINDOW_PAGE && (i < j ==> tables[i] < tables[j])
  }

  ghost predicate InMemory(tables: seq<nat>) {
    forall i | 0 <= i < |tables| :: tables[i] < FRAMES
  }

  ghost predicate FilledAt(mem: Memory, tables: seq<nat>, next: nat, readOnly: nat, p: nat)
    requires InMemory(tables)
  {
    p < WINDOW_PAGE && p / 1024 < |tables| ==>
      mem[tables[p / 1024]][p % 1024] == if p < next then IdentityEntry(p, readOnly) else 0
  }

  /** Pages below `next` have their identity entries; the rest of the tables is empty. */
  ghost predicate Filled(mem: Memory, tables: seq<nat>, next: nat, readOnly: nat) {
    && InMemory(tables)
    && forall p: nat :: FilledAt(mem, tables, next, readOnly, p)
  }

  /** The first `k` tables are in the directory, whose other slots are empty. */
  ghost predicate Hung(mem: Memory, pd: nat, tables: seq<nat>, k: nat) {
    && pd < FRAMES && k <= |tables| && k <= ENTRIES
    && InMemory(tables)
    && forall i: nat :: SlotAt(mem, pd, tables, k, i)
  }

  ghost predicate SlotAt(mem: Memory, pd: nat, tables: seq<nat>, k: nat, i: nat)
    requires pd < FRAMES && k <= |tables| && InMemory(tables)
  {
    i < ENTRIES ==> mem[pd][i] == if i < k then TableEntry(tables[i]) else 0
  }

  ghost predicate Building(mem: Memory, pd: nat, tables: seq<nat>, k: nat, next: nat, readOnly: nat) {
    Ascending(tables, pd) && Filled(mem, tables, next, readOnly) && Hung(mem, pd, tables, k)
  }

  lemma HangNext(mem: Memory, pd: nat, tables: seq<nat>, k: nat, next: nat, readOnly: nat)
    requires Building(mem, pd, tables, k, next, readOnly) && k < |tables| && k < ENTRIES
    ensures Building(mem[pd := mem[pd][k := TableEntry(tables[k])]], pd, tables, k + 1, next, readOnly)
  {
    var mem', k' := mem[pd := mem[pd][k := TableEntry(tables[k])]], k + 1;
    forall p: nat
      ensures FilledAt(mem', tables, next, readOnly, p)
    {
      assert InOrder(tables, pd, p / 1024, p / 1024);
      assert FilledAt(mem, tables, next, readOnly, p);
    }
    forall i: nat
      ensures SlotAt(mem', pd, tables, k', i)
    {
      assert SlotAt(mem, pd, tables, k, i);
    }
  }

  lemma AddTable(mem: Memory, pd: nat, tables: seq<nat>, t: nat, readOnly: nat)
    requires Building(mem, pd, tables, |tables|, |tables| * 1024, readOnly)
    requires (if tables == [] then pd else tables[|tables| - 1]) < t < WINDOW_PAGE
    ensures Building(mem[t := Zeros(ENTRIES)], pd, tables + [t], |tables|, |tables| * 1024, readOnly)
  {
    var mem', tables', next := mem[t := Zeros(ENTRIES)], tables + [t], |tables| * 1024;
    assert InOrder(tables, pd, |tables| - 1, |tables| - 1);
    forall i, j
      ensures InOrder(tables', pd, i, j)
    {
      assert InOrder(tables, pd, i, j) && InOrder(tables, pd, i, |tables| - 1);
    }
    forall p: nat
      ensures FilledAt(mem', tables', next, readOnly, p)
    {
      assert InOrder(tables', pd, p / 1024, |tables|);
      assert FilledAt(mem, tables, next, readOnly, p);
    }
    forall i: nat
      ensures SlotAt(mem', pd, tables', |tables|, i)
    {
      assert SlotAt(mem, pd, tables, |tables|, i);
    }
  }

  lemma FillNext(mem: Memory, pd: nat, tables: seq<nat>, k: nat, next: nat, readOnly: nat)
    requires Building(mem, pd, tables, k, next, readOnly) && next < WINDOW_PAGE && next / 1024 == |tables| - 1
    ensures var t := tables[|tables| - 1];
            Building(mem[t := mem[t][next % 1024 := IdentityEntry(next, readOnly)]], pd, tables, k, next + 1, readOnly)
  {
    var t := tables[|tables| - 1];
    var mem' := mem[t := mem[t][next % 1024 := IdentityEntry(next, readOnly)]];
    var next' := next + 1;
    assert InOrder(tables, pd, |tables| - 1, |tables| - 1);
    forall i: nat
      ensures SlotAt(mem', pd, tables, k, i)
    {
      assert SlotAt(mem, pd, tables, k, i);
    }
    forall p: nat
      ensures FilledAt(mem', tables, next', readOnly, p)
    {
      assert InOrder(tables, pd, p / 1024, |tables| - 1);
      assert FilledAt(mem, tables, next, readOnly, p);
      assert p / 1024 == next / 1024 && p != next ==> p % 1024 != next % 1024;
    }
  }

  ghost predicate TablesRecorded(tables: seq<nat>, pd: nat, owner: map<nat, Owner>) {
    && pd in owner && owner[pd] == Directory
    && forall i | 0 <= i < |tables| :: tables[i] in owner && owner[tables[i]] == PageTable(i)
  }

  /** With all tables hung and the directory in its own last slot, the address space is sound. */
  lemma FinishedIsSound(mem: Memory, pd: nat, tables: seq<nat>, top: nat, readOnly: nat,
                        frames: Frames, owner: map<nat, Owner>)
    requires Building(mem, pd, tables, |tables|, top + 1, readOnly)
    requires pd <= top < WINDOW_PAGE && |tables| == top / 1024 + 1
    requires TablesRecorded(tables, pd, owner) && owner.Keys <= frames.used
    requires forall f: nat :: f in frames.usable && f <= top ==> f in frames.used
    ensures Sound(mem[pd := mem[pd][SELF_MAP := TableEntry(pd)]], pd, top, frames, owner)
  {
    var mem' := mem[pd := mem[pd][SELF_MAP := TableEntry(pd)]];
    EntryMeaning(pd, readOnly);
    forall p: nat
      ensures IdentityPage(mem', pd, top, p) && OwnedPage(mem', pd, top, frames.usable, owner, p)
    {
      if p < WINDOW_PAGE {
        FinishedPage(mem, pd, tables, top, readOnly, p);
      }
    }
    FinishedOwners(mem, pd, tables, owner);
  }

  lemma FinishedOwners(mem: Memory, pd: nat, tables: seq<nat>, owner: map<nat, Owner>)
    requires Hung(mem, pd, tables, |tables|) && |tables| <= SELF_MAP && TablesRecorded(tables, pd, owner)
    ensures TablesOwned(mem[pd := mem[pd][SELF_MAP := TableEntry(pd)]], pd, owner)
  {
    var mem' := mem[pd := mem[pd][SELF_MAP := TableEntry(pd)]];
    forall i: nat
      ensures OwnedTable(mem', pd, owner, i)
    {
      FinishedSlot(mem, pd, tables, |tables|, i);
    }
  }

  lemma FinishedSlot(mem: Memory, pd: nat, tables: seq<nat>, k: nat, i: nat)
    requires Hung(mem, pd, tables, k) && k <= SELF_MAP
    ensures var mem' := mem[pd := mem[pd][SELF_MAP := TableEntry(pd)]];
            i < SELF_MAP ==>
              && (HasTable(mem', pd, i) <==> i < k)
              && (i < k ==> TableFrame(mem', pd, i) == tables[i] && mem'[pd][i] % 0x1000 == 3)
  {
    assert SlotAt(mem, pd, tables, k, i);
    if i < k {
      EntryMeaning(tables[i], 0);
      EntryValues(tables[i], 0);
      FrameArithmetic(tables[i], 3);
    }
  }

  lemma FinishedPage(mem: Memory, pd: nat, tables: seq<nat>, top: nat, readOnly: nat, p: nat)
    requires Building(mem, pd, tables, |tables|, top + 1, readOnly)
    requires top < WINDOW_PAGE && |tables| == top / 1024 + 1 && p < WINDOW_PAGE
    ensures var mem' := mem[pd := mem[pd][SELF_MAP := TableEntry(pd)]];
            && (p <= top ==> Walk(mem', pd, p) == Some(p))
            && (p <= top ==> Entry(mem', pd, p) == Some(p * 0x1000 + if p > readOnly || p == 0xB8 then 3 else 1))
            && (top < p ==> Unmapped(mem', pd, p))
  {
    var mem' := mem[pd := mem[pd][SELF_MAP := TableEntry(pd)]];
    var i, j := p / 1024, p % 1024;
    FinishedSlot(mem, pd, tables, |tables|, i);
    if i < |tables| {
      assert InOrder(tables, pd, i, i);
      assert mem'[tables[i]][j] == mem[tables[i]][j];
      assert FilledAt(mem, tables, top + 1, readOnly, p);
      EntryMeaning(p, readOnly);
      EntryValues(p, readOnly);
    }
  }

  /** Hangs `table` into directory slot `slot`. */
  method AddToDirectory(mem: Memory, pd: nat, slot: nat, table: nat, ghost tables: seq<nat>, ghost next: nat,
                        ghost readOnly: nat)
    returns (mem': Memory)
    requires slot < |tables| && slot < ENTRIES && table == tables[slot]
    requires Building(mem, pd, tables, slot, next, readOnly)
    ensures Building(mem', pd, tables, slot + 1, next, readOnly)
  {
    HangNext(mem, pd, tables, slot, next, readOnly);
    mem' := mem[pd := mem[pd][slot := TableEntry(table)]];
  }

  /** Writes the identity entry of page `frame` into the table under construction. */
  method SetEntry(mem: Memory, table: nat, frame: nat, readOnly: nat, ghost pd: nat, ghost tables: seq<nat>,
                  ghost k: nat)
    returns (mem': Memory)
    requires Building(mem, pd, tables, k, frame, readOnly)
    requires frame < WINDOW_PAGE && frame / 1024 == |tables| - 1 && table == tables[|tables| - 1]
    ensures Building(mem', pd, tables, k, frame + 1, readOnly)
  {
    FillNext(mem, pd, tables, k, frame, readOnly);
    mem' := mem[table := mem[table][frame % 1024 := IdentityEntry(frame, readOnly)]];
  }

  /** The step at each multiple of 1024 frames: hang the finished table, start the next one. */
  method StartTable(m: Mmu, pd: nat, mem0: Memory, slot0: nat, table: Option<nat>, ghost tables: seq<nat>,
                    ghost frame: nat, ghost readOnly: nat, ghost usable: set<nat>, ghost used: set<nat>)
    returns (ok: bool, mem: Memory, slot: nat, t: nat)
    requires Progress(m.frames, pd, tables, usable, used)
    requires Building(mem0, pd, tables, slot0, frame, readOnly)
    requires frame == |tables| * 1024 && frame < WINDOW_PAGE
    requires if tables == [] then table == None && slot0 == 0
             else table == Some(tables[|tables| - 1]) && slot0 == |tables| - 1
    modifies m.frames.Repr()
    ensures m.pd == old(m.pd)
    ensures !ok ==> m.frames.Free() == {}
    ensures ok ==>
              && (if tables == [] then pd else tables[|tables| - 1]) < t < WINDOW_PAGE
              && Progress(m.frames, pd, tables + [t], usable, used)
              && Building(mem, pd, tables + [t], slot, frame, readOnly) && slot == |tables|
  {
    mem, slot := mem0, slot0;
    if table.Some? {
      mem := AddToDirectory(mem, pd, slot, table.value, tables, frame, readOnly);
      slot := slot + 1;
    }
    ok, t := CreateNextTable(m, pd, tables, usable, used);
    if ok {
      AddTable(mem, pd, tables, t, readOnly);
      mem := mem[t := Zeros(ENTRIES)];
    }
  }

  /**
   Builds the identity map. The bound of the loop is the last frame in use,
   which grows with every table created on the way.
   */
  method BuildIdentityMap(m: Mmu, readOnly: nat) returns (ok: bool, mem: Memory, top: nat, ghost tables: seq<nat>)
    requires m.pd < WINDOW_PAGE && readOnly <= m.pd
    requires Progress(m.frames, m.pd, [], m.frames.Usable(), m.frames.Used())
    modifies m.frames.Repr()
    ensures m.pd == old(m.pd)
    ensures !ok ==> m.frames.Free() == {}
    ensures ok ==>
              && Progress(m.frames, m.pd, tables, old(m.frames.Usable()), old(m.frames.Used()))
              && Building(mem, m.pd, tables, |tables|, top + 1, readOnly)
              && |tables| == top / 1024 + 1 && top == tables[|tables| - 1]
  {
    var pd := m.pd;
    mem := m.mem[pd := Zeros(ENTRIES)];
    var lastUsedFrame: nat, frame: nat, slot: nat := readOnly, 0, 0;
    var table: Option<nat> := None;
    tables, top := [], 0;
    while frame <= lastUsedFrame
      invariant m.pd == pd
      invariant Mapping(m.frames, pd, mem, tables, slot, table, frame, lastUsedFrame, readOnly,
                        old(m.frames.Usable()), old(m.frames.Used()))
      decreases WINDOW_PAGE - frame
    {
      ok, mem, slot, table, lastUsedFrame, tables :=
        MapFrame(m, pd, mem, slot, table, frame, lastUsedFrame, readOnly, tables,
                 old(m.frames.Usable()), old(m.frames.Used()));
      if !ok {
        return;
      }
      frame := frame + 1;
    }
    mem := AddToDirectory(mem, pd, slot, table.value, tables, frame, readOnly);
    top, ok := lastUsedFrame, true;
  }

  /** The state of the mapping loop with `frame` as the next frame to map. */
  ghost predicate Mapping(frames: PageFrameAllocator, pd: nat, mem: Memory, tables: seq<nat>, slot: nat,
                          table: Option<nat>, frame: nat, last: nat, readOnly: nat, usable: set<nat>, used: set<nat>)
    reads frames.Repr()
  {
    && Progress(frames, pd, tables, usable, used)
    && Building(mem, pd, tables, slot, frame, readOnly)
    && |tables| == (frame + 1023) / 1024
    && frame <= last + 1 && last < WINDOW_PAGE
    && if tables == [] then
         table == None && slot == 0 && last == readOnly
       else
         table == Some(tables[|tables| - 1]) && slot == |tables| - 1 && last == tables[|tables| - 1]
  }

  /** One turn of the mapping loop. */
  method MapFrame(m: Mmu, pd: nat, mem0: Memory, slot0: nat, table0: Option<nat>, frame: nat, last0: nat, readOnly: nat,
                  ghost tables0: seq<nat>, ghost usable: set<nat>, ghost used: set<nat>)
    returns (ok: bool, mem: Memory, slot: nat, table: Option<nat>, last: nat, ghost tables: seq<nat>)
    requires frame <= last0 && readOnly <= pd
    requires Mapping(m.frames, pd, mem0, tables0, slot0, table0, frame, last0, readOnly, usable, used)
    modifies m.frames.Repr()
    ensures m.pd == old(m.pd)
    ensures !ok ==> m.frames.Free() == {}
    ensures ok ==> Mapping(m.frames, pd, mem, tables, slot, table, frame + 1, last, readOnly, usable, used)
  {
    ok, mem, slot, table, last, tables := true, mem0, slot0, table0, last0, tables0;
    if frame % 1024 == 0 {
      var t: nat;
      ok, mem, slot, t := StartTable(m, pd, mem, slot, table, tables, frame, readOnly, usable, used);
      if !ok {
        return;
      }
      tables := tables + [t];
      last := Max(last, t);
      table := Some(t);
    }
    mem := SetEntry(mem, table.value, frame, readOnly, pd, tables, slot);
  }

  /**
   Installs the directory. Afterwards every frame up to the last one in use is
   mapped to itself, the tables and the directory included, nothing else is
   mapped outside the self-map window, and the address space is sound.
   */
  method Install(m: Mmu, readOnlyEnd: nat) returns (ok: bool)
    requires m.pd < WINDOW_PAGE && readOnlyEnd / 0x1000 <= m.pd && m.pd in m.frames.Used()
    requires Progress(m.frames, m.pd, [], m.frames.Usable(), m.frames.Used())
    modifies m.Repr()
    ensures !ok ==> m.frames.Free() == {}
    ensures ok ==>
              && m.Valid() && m.pd == old(m.pd)
              && m.frames.Usable() == old(m.frames.Usable())
              && m.frames.Used() == old(m.frames.Used()) + TableFrames(m.mem, m.pd)
              && m.frames.lastAllocFrame == m.top * 0x1000
              && (forall p: nat | p < WINDOW_PAGE :: FreshMap(m.mem, m.pd, m.top, readOnlyEnd / 0x1000, p))
              && (forall f :: f in TableFrames(m.mem, m.pd) ==> m.pd < f <= m.top)
              && m.mem[m.pd][1023] == m.pd * 0x1000 + 3
              && (forall i: nat | i < 1023 :: HasTable(m.mem, m.pd, i) <==> i <= m.top / 1024)
  {
    var mem: Memory, top: nat;
    ghost var tables: seq<nat>;
    ok, mem, top, tables := BuildIdentityMap(m, readOnlyEnd / 0x1000);
    if !ok {
      return;
    }
    ghost var owner := Record(tables, m.pd);
    assert InOrder(tables, m.pd, |tables| - 1, |tables| - 1);
    FinishedIsSound(mem, m.pd, tables, top, readOnlyEnd / 0x1000, m.FrameSets(), owner);
    FinishedMap(mem, m.pd, tables, top, readOnlyEnd / 0x1000);
    EntryValues(m.pd, 0);
    m.mem := mem[m.pd := mem[m.pd][SELF_MAP := TableEntry(m.pd)]];
    m.top, m.owner := top, owner;
  }

  lemma FinishedMap(mem: Memory, pd: nat, tables: seq<nat>, top: nat, readOnly: nat)
    requires Building(mem, pd, tables, |tables|, top + 1, readOnly)
    requires top < WINDOW_PAGE && |tables| == top / 1024 + 1 && top == tables[|tables| - 1]
    ensures var mem' := mem[pd := mem[pd][SELF_MAP := TableEntry(pd)]];
            && TableFrames(mem', pd) == Elements(tables)
            && (forall p: nat | p < WINDOW_PAGE :: FreshMap(mem', pd, top, readOnly, p))
            && (forall f :: f in TableFrames(mem', pd) ==> pd < f <= top)
            && (forall i: nat | i < 1023 :: HasTable(mem', pd, i) <==> i <= top / 1024)
  {
    var mem' := mem[pd := mem[pd][SELF_MAP := TableEntry(pd)]];
    FinishedTables(mem, pd, tables);
    forall i: nat | i < 1023
      ensures HasTable(mem', pd, i) <==> i <= top / 1024
    {
      FinishedSlot(mem, pd, tables, |tables|, i);
    }
    forall p: nat | p < WINDOW_PAGE
      ensures FreshMap(mem', pd, top, readOnly, p)
    {
      FinishedPage(mem, pd, tables, top, readOnly, p);
    }
    forall f | f in Elements(tables)
      ensures pd < f <= top
    {
      var i :| 0 <= i < |tables| && tables[i] == f;
      assert InOrder(tables, pd, i, |tables| - 1);
    }
  }

  /** Page `p` right after installation: itself with its access rights, or unmapped. */
  ghost predicate FreshMap(mem: Memory, pd: nat, top: nat, readOnly: nat, p: nat)
    requires pd < FRAMES && p < WINDOW_PAGE
  {
    if p <= top then
      && Walk(mem, pd, p) == Some(p)
      && Entry(mem, pd, p) == Some(p * 0x1000 + if p > readOnly || p == 0xB8 then 3 else 1)
    else
      Unmapped(mem, pd, p)
  }

  /** What building the tables does to the frame allocator. */
  ghost predicate Progress(frames: PageFrameAllocator, pd: nat, tables: seq<nat>, usable: set<nat>, used: set<nat>)
    reads frames.Repr()
  {
    && frames.Valid() && frames.Usable() == usable
    && frames.Used() == used + Elements(tables)
    && frames.lastAllocFrame == (if tables == [] then pd else tables[|tables| - 1]) * 0x1000
    && forall f :: f in usable && f !in frames.Used() ==> FrameToIndex(frames.lastAllocFrame) < f < WINDOW_PAGE
  }

  ghost function Elements(s: seq<nat>): set<nat> {
    set x | x in s
  }

  /** A table in the lowest free frame, or a panic. */
  method CreateNextTable(m: Mmu, ghost pd: nat, ghost tables: seq<nat>, ghost usable: set<nat>, ghost used: set<nat>)
    returns (ok: bool, t: nat)
    requires Progress(m.frames, pd, tables, usable, used)
    modifies m.frames.Repr()
    ensures m.pd == old(m.pd) && m.mem == old(m.mem)
    ensures !ok ==> m.frames.Free() == {}
    ensures ok ==>
              && t < WINDOW_PAGE && (if tables == [] then pd else tables[|tables| - 1]) < t
              && Progress(m.frames, pd, tables + [t], usable, used)
  {
    ghost var free, start := m.frames.Free(), FrameToIndex(m.frames.lastAllocFrame);
    var frame := m.NewFrame();
    if frame.None? {
      return false, 0;
    }
    t := FrameToIndex(frame.value);
    NextIsLowest(free, start, t);
    assert Elements(tables + [t]) == Elements(tables) + {t};
    assert forall f :: f in usable && f !in m.frames.Used() ==> f in free;
    ok := true;
  }

  /** The owners of the frames used so far. */
  ghost function Record(tables: seq<nat>, pd: nat): (owner: map<nat, Owner>)
    requires Ascending(tables, pd)
    ensures TablesRecorded(tables, pd, owner) && owner.Keys == {pd} + Elements(tables)
  {
    if tables == [] then map[pd := Directory] else
    var k := |tables| - 1;
    AscendingPrefix(tables, pd);
    Record(tables[..k], pd)[tables[k] := PageTable(k)]
  }

  lemma AscendingPrefix(tables: seq<nat>, pd: nat)
    requires Ascending(tables, pd) && tables != []
    ensures var k := |tables| - 1;
            && Ascending(tables[..k], pd)
            && pd < tables[k] && (forall i | 0 <= i < k :: tables[i] < tables[k])
            && Elements(tables) == Elements(tables[..k]) + {tables[k]}
  {
    var k := |tables| - 1;
    assert tables == tables[..k] + [tables[k]];
    var prefix := tables[..k];
    forall i, j
      ensures InOrder(prefix, pd, i, j)
    {
      assert InOrder(tables, pd, i, j);
    }
    forall i | 0 <= i <= k
      ensures pd < tables[k] && (i < k ==> tables[i] < tables[k])
    {
      assert InOrder(tables, pd, i, k) && InOrder(tables, pd, k, k);
    }
  }

  lemma FinishedTables(mem: Memory, pd: nat, tables: seq<nat>)
    requires Hung(mem, pd, tables, |tables|) && |tables| <= SELF_MAP
    ensures TableFrames(mem[pd := mem[pd][SELF_MAP := TableEntry(pd)]], pd) == Elements(tables)
  {
    var mem' := mem[pd := mem[pd][SELF_MAP := TableEntry(pd)]];
    forall i: nat | i < SELF_MAP
      ensures HasTable(mem', pd, i) <==> i < |tables|
      ensures i < |tables| ==> TableFrame(mem', pd, i) == tables[i]
    {
      FinishedSlot(mem, pd, tables, |tables|, i);
    }
    forall t | t in tables
      ensures t in TableFrames(mem', pd)
    {
      var i :| 0 <= i < |tables| && tables[i] == t;
      assert HasTable(mem', pd, i);
    }
  }

  /**
   The kernel's start-up sequence. The link order puts the read-only data before
   the kernel's end, and no available memory lies in the self-map's last 4 MiB.
   */
  method StartPaging(memory: Memory, regions: seq<Region>, kernelEnd: nat, readOnlyEnd: nat)
    returns (ok: bool, m: Mmu)
    requires forall r :: r in regions ==> r.addr / 0x1000 + r.len / 0x1000 <= FRAMES
    requires forall f :: f in AvailableFrames(regions) ==> f < WINDOW_PAGE
    requires readOnlyEnd <= kernelEnd < SELF_MAP_BASE
    ensures fresh(m.Repr())
    ensures !ok ==> !(KernelFrames(kernelEnd) <= AvailableFrames(regions)) || m.frames.Free() == {}
    ensures ok ==>
              && m.Valid()
              && kernelEnd / 0x1000 < m.pd <= m.top
              && (forall f :: f in AvailableFrames(regions) - Range(0, LOW_FRAMES) - KernelFrames(kernelEnd) ==>
                    m.pd <= f)
              && m.frames.Usable() == AvailableFrames(regions) - Range(0, LOW_FRAMES)
              && m.frames.Used() == KernelFrames(kernelEnd) + {m.pd} + TableFrames(m.mem, m.pd)
              && (forall p: nat | p < WINDOW_PAGE :: FreshMap(m.mem, m.pd, m.top, readOnlyEnd / 0x1000, p))
  {
    m := new Mmu(memory);
    ok := ReserveKernel(m, regions, kernelEnd);
    if !ok {
      return;
    }
    ghost var free := m.frames.Free();
    ok := CreateDirectory(m);
    if !ok {
      return;
    }
    assert m.pd in free && m.pd !in KernelFrames(kernelEnd) && m.pd !in Range(0, LOW_FRAMES);
    assert Elements([]) == {};
    ok := Install(m, readOnlyEnd);
  }
}
