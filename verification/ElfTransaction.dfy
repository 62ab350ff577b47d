/**
 Loading seen from where it began: which pages are new, how the list of things to clean
 up is kept on the heap, and how the heap fares meanwhile.
 */
module ElfTransaction {
  import opened PageFrames
  import opened PageTables
  import opened Mmus
  import opened PagingRuns
  import opened HeapModel
  import opened HeapLinks
  import HeapStates
  import opened Heaps
  import opened HeapResidue
  import opened HeapLoans
  import opened ElfSegments

  type Block = HeapModel.Block

  /** The state in which loading began, in a run that itself began with `start` and `base`. */
  datatype Before = Before(data: Physical, mem: Memory, used: set<nat>, held: set<Extent>, blocks: seq<Block>,
                           bytes: HeapStates.Bytes, start: Memory, base: set<nat>)

  ghost function All(b: Before): set<Extent> {
    b.held + HeapStates.Extents(b.blocks)
  }

  /** It was a proper state of a run from `start` and `base`. */
  ghost predicate Origin(b: Before, pd: nat, top: nat, start: Memory, base: set<nat>)
    requires pd < FRAMES
  {
    && AddsOnly(start, b.mem, pd, HeldPages(All(b))) && Ledger(b.mem, pd, top, base, b.used, HeldPages(All(b)))
    && HeapStates.AllBacked(b.mem, pd, b.blocks)
  }

  /** The ranges mapped since. */
  ghost function Since(b: Before, held: set<Extent>, blocks: seq<Block>): set<Extent> {
    held + HeapStates.Extents(blocks) - All(b)
  }

  /** Every old block is still there, on the same frames. */
  ghost predicate BlocksRemain(old_: seq<Block>, blocks: seq<Block>) {
    forall i | 0 <= i < |old_| :: BlockRemains(old_[i], blocks)
  }

  ghost predicate BlockRemains(b: Block, blocks: seq<Block>) {
    exists j :: 0 <= j < |blocks| && b == blocks[j].(cells := b.cells)
  }

  lemma LentBlocksRemain(blocks: seq<Block>, bytes: HeapStates.Bytes, pointers: set<nat>, b: Before)
    requires Lent(blocks, bytes, pointers, b.blocks, b.bytes)
    ensures BlocksRemain(b.blocks, blocks) && HeapStates.Extents(b.blocks) <= HeapStates.Extents(blocks)
  {
    forall i | 0 <= i < |b.blocks|
      ensures BlockRemains(b.blocks[i], blocks) && HeapStates.ExtentOf(b.blocks[i]) in HeapStates.Extents(blocks)
    {
      var j := BlockOfResidue(blocks, Loans(blocks, pointers), i);
      assert HeapStates.ExtentOf(blocks[j]) == HeapStates.ExtentOf(b.blocks[i]);
    }
  }

  /** What was mapped before is where it was; only the ranges since are new. */
  lemma OnlySinceIsNew(b: Before, pd: nat, top: nat, start: Memory, base: set<nat>, mem: Memory,
                       held: set<Extent>, blocks: seq<Block>)
    requires pd < FRAMES && Origin(b, pd, top, start, base)
    requires Apart(held + HeapStates.Extents(blocks))
    requires AddsOnly(start, mem, pd, HeldPages(held + HeapStates.Extents(blocks)))
    requires b.held <= held && Undisturbed(b.mem, mem, pd, b.held)
    requires HeapStates.AllBacked(mem, pd, blocks) && BlocksRemain(b.blocks, blocks)
    requires HeapStates.Extents(b.blocks) <= HeapStates.Extents(blocks)
    ensures AddsOnly(b.mem, mem, pd, HeldPages(Since(b, held, blocks)))
  {
    var now, since := held + HeapStates.Extents(blocks), Since(b, held, blocks);
    forall q | q in HeldPages(since)
      ensures q < WINDOW_PAGE && Unmapped(b.mem, pd, q)
    {
      var e :| e in since && q in Pages(e);
      NewPage(All(b), now, e, q);
      assert q in HeldPages(now) && Unmapped(start, pd, q);
      assert SamePage(start, b.mem, pd, q);
    }
    forall q: nat | q !in HeldPages(since)
      ensures SamePage(b.mem, mem, pd, q)
    {
      OldPage(b, pd, start, mem, held, blocks, q);
    }
  }

  lemma NewPage(all: set<Extent>, now: set<Extent>, e: Extent, q: nat)
    requires Apart(now) && all <= now && e in now && e !in all && q in Pages(e)
    ensures q !in HeldPages(all)
  {
    forall e' | e' in all
      ensures q !in Pages(e')
    {
      assert NoOverlap(now, e, e');
    }
  }

  lemma OldPage(b: Before, pd: nat, start: Memory, mem: Memory, held: set<Extent>, blocks: seq<Block>, q: nat)
    requires pd < FRAMES && AddsOnly(start, b.mem, pd, HeldPages(All(b))) && HeapStates.AllBacked(b.mem, pd, b.blocks)
    requires AddsOnly(start, mem, pd, HeldPages(held + HeapStates.Extents(blocks)))
    requires Undisturbed(b.mem, mem, pd, b.held)
    requires HeapStates.AllBacked(mem, pd, blocks) && BlocksRemain(b.blocks, blocks)
    requires All(b) <= held + HeapStates.Extents(blocks) && q !in HeldPages(Since(b, held, blocks))
    ensures SamePage(b.mem, mem, pd, q)
  {
    if q in HeldPages(held + HeapStates.Extents(blocks)) {
      var e :| e in held + HeapStates.Extents(blocks) && q in Pages(e);
      assert e in All(b);
      if e in b.held {
        PagesOfOne(b.held, e);
      } else {
        var i :| 0 <= i < |b.blocks| && HeapStates.ExtentOf(b.blocks[i]) == e;
        BlockPageStays(b.mem, mem, pd, b.blocks, blocks, i, q);
      }
    } else {
      HeapStates.PagesOfMore(All(b), held + HeapStates.Extents(blocks));
      assert SamePage(start, b.mem, pd, q) && SamePage(start, mem, pd, q);
    }
  }

  lemma BlockPageStays(mem0: Memory, mem: Memory, pd: nat, old_: seq<Block>, blocks: seq<Block>, i: nat, q: nat)
    requires pd < FRAMES && i < |old_| && HeapStates.AllBacked(mem0, pd, old_) && HeapStates.AllBacked(mem, pd, blocks)
    requires BlocksRemain(old_, blocks) && q in Pages(HeapStates.ExtentOf(old_[i]))
    ensures SamePage(mem0, mem, pd, q)
  {
    assert BlockRemains(old_[i], blocks);
    var j :| 0 <= j < |blocks| && old_[i] == blocks[j].(cells := old_[i].cells);
    assert HeapStates.Backed(mem0, pd, old_[i]) && HeapStates.Backed(mem, pd, blocks[j]);
    assert HeapStates.BackedPage(mem0, pd, old_[i], q) && HeapStates.BackedPage(mem, pd, blocks[j], q);
    EntryIs(mem0, pd, q);
    EntryIs(mem, pd, q);
  }

  /** Back to the ranges held before: translations are back, and only page tables were added. */
  lemma BackWhereItWas(b: Before, pd: nat, top: nat, start: Memory, base: set<nat>, mem: Memory, used: set<nat>)
    requires pd < FRAMES && Origin(b, pd, top, start, base) && AddsOnly(b.mem, mem, pd, {})
    requires Ledger(mem, pd, top, base, used, HeldPages(All(b))) && KeepsTables(b.mem, mem, pd)
    ensures SameTranslations(b.mem, mem, pd) && used == b.used + TableFrames(mem, pd)
  {
    forall q: nat
      ensures SamePage(b.mem, mem, pd, q)
    {
    }
    forall q | q in HeldPages(All(b))
      ensures q < WINDOW_PAGE && SamePage(b.mem, mem, pd, q)
    {
      assert MappedAt(mem, pd, top, q);
    }
    SameFrames(b.mem, mem, pd, HeldPages(All(b)));
    MoreTables(b.mem, mem, pd);
  }

  /** The same, told of a heap: everyone holds what they held, and the heap has the blocks it had. */
  lemma BackAsBefore(h: Heap, b: Before)
    requires h.Valid() && h.blocks == b.blocks && h.others.around.held == b.held
    requires h.others.around.start == b.start && h.others.around.base == b.base
    requires h.os.pd < FRAMES && Undisturbed(b.mem, h.os.mem, h.os.pd, b.held)
    requires Origin(b, h.os.pd, h.os.top, b.start, b.base)
    ensures SameTranslations(b.mem, h.os.mem, h.os.pd)
    ensures h.os.frames.Used() == b.used + TableFrames(h.os.mem, h.os.pd)
  {
    assert h.Shares(h.blocks, Concern.Accounts) && h.Shares(h.blocks, Places);
    assert HeapStates.Holdings(h.others.around, h.blocks) == All(b);
    AllSides(h.os, b.start, b.base, All(b));
    forall i | 0 <= i < |b.blocks|
      ensures BlockRemains(b.blocks[i], h.blocks)
    {
      assert b.blocks[i] == h.blocks[i].(cells := b.blocks[i].cells);
    }
    OnlySinceIsNew(b, h.os.pd, h.os.top, b.start, b.base, h.os.mem, b.held, h.blocks);
    assert Since(b, b.held, h.blocks) == {} && HeldPages({}) == {};
    BackWhereItWas(b, h.os.pd, h.os.top, b.start, b.base, h.os.mem, h.os.frames.Used());
  }

  // ----- The cleanup list -----

  /** What one entry of the list takes on the heap: a node, and its reference count. */
  const NODE_SIZE: nat := 20
  const COUNT_SIZE: nat := 16

  /** An entry of the list: a range to give back, and the two allocations it is kept in. */
  datatype Item = Item(extent: Extent, node: nat, count: nat)

  function PointersOf(items: seq<Item>): set<nat> {
    if items == [] then {}
    else PointersOf(items[..|items| - 1]) + {items[|items| - 1].node, items[|items| - 1].count}
  }

  function RangesOf(items: seq<Item>): set<Extent> {
    if items == [] then {}
    else
      var last := items[|items| - 1].extent;
      RangesOf(items[..|items| - 1]) + (if last.pages > 0 then {last} else {})
  }

  /** No two entries share an allocation or a range. */
  predicate WellLinked(items: seq<Item>) {
    items == [] ||
    (var front, last := items[..|items| - 1], items[|items| - 1];
     && WellLinked(front) && last.node != last.count
     && last.node !in PointersOf(front) && last.count !in PointersOf(front)
     && (last.extent.pages > 0 ==> last.extent !in RangesOf(front)))
  }

  lemma ItemAdded(items: seq<Item>, item: Item)
    requires WellLinked(items) && item.node != item.count
    requires item.node !in PointersOf(items) && item.count !in PointersOf(items)
    requires item.extent.pages > 0 ==> item.extent !in RangesOf(items)
    ensures WellLinked(items + [item]) && PointersOf(items + [item]) == PointersOf(items) + {item.node, item.count}
    ensures RangesOf(items + [item]) == RangesOf(items) + (if item.extent.pages > 0 then {item.extent} else {})
  {
    assert (items + [item])[..|items|] == items;
  }

  // ----- How the heap fares -----

  /** The heap and the page tables when a segment is tried. */
  datatype Stage = Stage(blocks: seq<Block>, mem: Memory)

  /** What happens between mapping a segment and the next: where the two allocations went. */
  datatype Enqueuing = Enqueuing(mem: Memory, mid: Stage, i: nat, k: nat, j: nat, l: nat)

  ghost predicate IsMapped(mem: Memory, pd: nat, q: nat)
    requires pd < FRAMES
  {
    q < FRAMES && !Unmapped(mem, pd, q)
  }

  /** The pages of ranges that only the later blocks have. */
  ghost function NewPages(blocks: seq<Block>, blocks': seq<Block>): set<nat> {
    HeldPages(HeapStates.Extents(blocks') - HeapStates.Extents(blocks))
  }

  /** The page tables of `to` are those of `from` with the pages of new blocks, unmapped so far, mapped. */
  ghost predicate Widened(pd: nat, from: Stage, to: Stage)
    requires pd < FRAMES
  {
    && AddsOnly(from.mem, to.mem, pd, NewPages(from.blocks, to.blocks))
    && forall q: nat | q in NewPages(from.blocks, to.blocks) :: Writable(to.mem, pd, q)
  }

  /** An allocation of `req` bytes: in the first gap of a block that has one, else in a new block on the lowest run. */
  ghost predicate Lodged(h: Heap, pd: nat, from: Stage, to: Stage, i: nat, k: nat, req: nat)
    requires pd < FRAMES
  {
    && h.Placed(from.blocks, to.blocks, i, k, req) && HeapOk(to.blocks) && Widened(pd, from, to)
    && (i == |from.blocks| ==>
          i < |to.blocks| && LowestRun(from.mem, pd, PagesFor(req + OVERHEAD), to.blocks[i].addr / 4096))
  }

  /** The page tables `mem'` are `mem` with the segment's pages mapped. */
  ghost predicate SegmentMapped(pd: nat, s: Segment, mem: Memory, mem': Memory)
    requires pd < FRAMES
  {
    && SameOutside(mem, mem', pd, s.vaddress / 0x1000, PageCount(s))
    && forall q: nat | s.vaddress / 0x1000 <= q < s.vaddress / 0x1000 + PageCount(s) :: Writable(mem', pd, q)
  }

  /** The segment is mapped, then the list takes a node and a count from the heap. */
  ghost predicate Enqueued(h: Heap, pd: nat, s: Segment, st: Stage, how: Enqueuing, next: Stage)
    requires pd < FRAMES
  {
    && SegmentMapped(pd, s, st.mem, how.mem)
    && Lodged(h, pd, Stage(st.blocks, how.mem), how.mid, how.i, how.k, NODE_SIZE)
    && Lodged(h, pd, how.mid, next, how.j, how.l, COUNT_SIZE)
  }

  /** One segment further. */
  ghost predicate StageFollows(h: Heap, pd: nat, s: Segment, st: Stage, next: Stage)
    requires pd < FRAMES
  {
    if Wanted(s) then exists how :: Enqueued(h, pd, s, st, how, next) else next == st
  }

  /** The stages of loading: `stages[i]` is what segment `i` finds. */
  ghost predicate Staged(h: Heap, pd: nat, segments: seq<Segment>, stages: seq<Stage>, b: Before)
    requires pd < FRAMES
  {
    && 0 < |stages| <= |segments| + 1 && stages[0] == Stage(b.blocks, b.mem)
    && forall i :: 0 <= i < |stages| - 1 ==> StageFollows(h, pd, segments[i], stages[i], stages[i + 1])
  }

  lemma StageAdded(h: Heap, pd: nat, segments: seq<Segment>, stages: seq<Stage>, b: Before, next: Stage)
    requires pd < FRAMES && Staged(h, pd, segments, stages, b) && |stages| <= |segments|
    requires StageFollows(h, pd, segments[|stages| - 1], stages[|stages| - 1], next)
    ensures Staged(h, pd, segments, stages + [next], b)
  {
    var more := stages + [next];
    forall i | 0 <= i < |more| - 1
      ensures StageFollows(h, pd, segments[i], more[i], more[i + 1])
    {
      if i < |stages| - 1 {
        assert StageFollows(h, pd, segments[i], stages[i], stages[i + 1]);
      }
    }
  }

  /** The ranges the heap has taken since loading began. */
  ghost function Grown(b: Before, blocks: seq<Block>): set<Extent> {
    HeapStates.Extents(blocks) - HeapStates.Extents(b.blocks)
  }

  /** Segment `i` does not want pages that the heap has taken meanwhile. */
  ghost predicate Unobstructed(segments: seq<Segment>, stages: seq<Stage>, b: Before, i: nat)
    requires i < |segments| && i < |stages|
  {
    Wanted(segments[i]) ==> Pages(ElfSegments.ExtentOf(segments[i])) !! HeldPages(Grown(b, stages[i].blocks))
  }

  // ----- Which pages are mapped -----

  /** Placing an allocation keeps the ranges there are. */
  lemma PlacingKeepsRanges(h: Heap, before: seq<Block>, after: seq<Block>, i: nat, k: nat, req: nat)
    requires h.Placed(before, after, i, k, req)
    ensures HeapStates.Extents(before) <= HeapStates.Extents(after) && BlocksRemain(before, after)
  {
    forall j | 0 <= j < |before|
      ensures HeapStates.ExtentOf(before[j]) in HeapStates.Extents(after) && BlockRemains(before[j], after)
    {
      assert HeapStates.ExtentOf(after[j]) == HeapStates.ExtentOf(before[j]);
      assert before[j] == after[j].(cells := before[j].cells);
    }
  }

  /** Since `b` nobody but the heap has taken pages, and the heap has taken its new block's. */
  lemma HeapWidened(h: Heap, b: Before, i: nat, k: nat, req: nat)
    requires h.Valid() && h.Placed(b.blocks, h.blocks, i, k, req) && h.others.around.held == b.held
    requires h.others.around.start == b.start && h.others.around.base == b.base
    requires h.os.pd < FRAMES && Undisturbed(b.mem, h.os.mem, h.os.pd, b.held)
    requires Origin(b, h.os.pd, h.os.top, b.start, b.base)
    ensures Widened(h.os.pd, Stage(b.blocks, b.mem), Stage(h.blocks, h.os.mem))
  {
    var all := HeapStates.Holdings(h.others.around, h.blocks);
    assert h.Shares(h.blocks, Concern.Accounts) && h.Shares(h.blocks, Places);
    AllSides(h.os, b.start, b.base, all);
    PlacingKeepsRanges(h, b.blocks, h.blocks, i, k, req);
    OnlySinceIsNew(b, h.os.pd, h.os.top, b.start, b.base, h.os.mem, b.held, h.blocks);
    assert Since(b, b.held, h.blocks) == HeapStates.Extents(h.blocks) - HeapStates.Extents(b.blocks);
    HeapStates.PagesOfMore(Since(b, b.held, h.blocks), all);
    forall q: nat | q in NewPages(b.blocks, h.blocks)
      ensures Writable(h.os.mem, h.os.pd, q)
    {
      assert MappedAt(h.os.mem, h.os.pd, h.os.top, q);
      DynamicWritable(h.os.mem, h.os.pd, h.os.top, h.os.FrameSets(), h.os.owner, q);
    }
  }

  /** The pages of the first `i` segments that are loaded. */
  ghost function SegmentPages(segments: seq<Segment>, i: nat): set<nat>
    requires i <= |segments|
  {
    if i == 0 then {}
    else SegmentPages(segments, i - 1) +
         (if Wanted(segments[i - 1]) then Pages(ElfSegments.ExtentOf(segments[i - 1])) else {})
  }

  /** Page `q` is mapped at this stage exactly when it was before, or is one of `more`. */
  ghost predicate MapsAlso(mem0: Memory, mem: Memory, pd: nat, more: set<nat>, q: nat)
    requires pd < FRAMES
  {
    q < WINDOW_PAGE ==> (IsMapped(mem, pd, q) <==> IsMapped(mem0, pd, q) || q in more)
  }

  lemma LodgedMaps(h: Heap, pd: nat, from: Stage, to: Stage, i: nat, k: nat, req: nat, q: nat)
    requires pd < FRAMES && Lodged(h, pd, from, to, i, k, req)
    ensures MapsAlso(from.mem, to.mem, pd, NewPages(from.blocks, to.blocks), q)
    ensures HeapStates.Extents(from.blocks) <= HeapStates.Extents(to.blocks)
  {
    PlacingKeepsRanges(h, from.blocks, to.blocks, i, k, req);
    assert q !in NewPages(from.blocks, to.blocks) ==> SamePage(from.mem, to.mem, pd, q);
    assert q in NewPages(from.blocks, to.blocks) ==> Writable(to.mem, pd, q);
  }

  lemma GrownTwice(a: set<Extent>, b: set<Extent>, c: set<Extent>)
    requires a <= b <= c
    ensures HeldPages(c - a) == HeldPages(b - a) + HeldPages(c - b)
  {
    HeapStates.PagesOfMore(b - a, c - a);
    HeapStates.PagesOfMore(c - b, c - a);
    forall q | q in HeldPages(c - a)
      ensures q in HeldPages(b - a) + HeldPages(c - b)
    {
      var e :| e in c - a && q in Pages(e);
      assert e in b - a || e in c - b;
    }
  }

  lemma EnqueuedMaps(h: Heap, pd: nat, s: Segment, st: Stage, how: Enqueuing, next: Stage, q: nat)
    requires pd < FRAMES && Enqueued(h, pd, s, st, how, next)
    ensures MapsAlso(st.mem, next.mem, pd, Pages(ElfSegments.ExtentOf(s)) + NewPages(st.blocks, next.blocks), q)
    ensures HeapStates.Extents(st.blocks) <= HeapStates.Extents(next.blocks)
  {
    LodgedMaps(h, pd, Stage(st.blocks, how.mem), how.mid, how.i, how.k, NODE_SIZE, q);
    LodgedMaps(h, pd, how.mid, next, how.j, how.l, COUNT_SIZE, q);
    GrownTwice(HeapStates.Extents(st.blocks), HeapStates.Extents(how.mid.blocks), HeapStates.Extents(next.blocks));
    assert q !in Pages(ElfSegments.ExtentOf(s)) ==> SamePage(st.mem, how.mem, pd, q);
    assert q in Pages(ElfSegments.ExtentOf(s)) ==> Writable(how.mem, pd, q);
  }

  /**
   What segment `i` finds mapped is what was mapped at the start, the segments before
   it, and what the heap has taken. So the lowest free run, where the heap grows next,
   can be told beforehand.
   */
  lemma {:induction false} StageMaps(h: Heap, pd: nat, segments: seq<Segment>, stages: seq<Stage>, b: Before, i: nat,
                                     q: nat)
    requires pd < FRAMES && Staged(h, pd, segments, stages, b) && i < |stages|
    ensures MapsAlso(b.mem, stages[i].mem, pd, SegmentPages(segments, i) + HeldPages(Grown(b, stages[i].blocks)), q)
    ensures HeapStates.Extents(b.blocks) <= HeapStates.Extents(stages[i].blocks)
  {
    if i == 0 {
      assert Grown(b, stages[0].blocks) == {} && HeldPages({}) == {};
    } else {
      StageMaps(h, pd, segments, stages, b, i - 1, q);
      var s, st, next := segments[i - 1], stages[i - 1], stages[i];
      assert StageFollows(h, pd, s, st, next);
      if Wanted(s) {
        var how :| Enqueued(h, pd, s, st, how, next);
        EnqueuedMaps(h, pd, s, st, how, next, q);
        GrownTwice(HeapStates.Extents(b.blocks), HeapStates.Extents(st.blocks), HeapStates.Extents(next.blocks));
      }
    }
  }

  // ----- When the heap need not grow -----

  /** Some block has a gap of `need` bytes. */
  ghost predicate SomeRoom(blocks: seq<Block>, need: nat) {
    exists j :: 0 <= j < |blocks| && HasRoom(blocks[j], need)
  }

  /** What `n` entries of the list use up: 20 and 16 bytes, each with 32 of overhead and a header of 24. */
  function EntryRoom(n: nat): nat {
    148 * n
  }

  /** Taking the first gap that fits leaves the rest of every gap. */
  lemma GapShrinks(b: Block, k: nat, c: HeapModel.Cell, need: nat, spare: nat)
    requires k <= |b.cells| && c.addr == GapStart(b, k) && c.size + 24 == need && HasRoom(b, need + spare)
    ensures HasRoom(InsertCell(b, k, c), spare)
  {
    var g: nat :| g <= |b.cells| && Gap(b, g) >= need + spare;
    var b' := InsertCell(b, k, c);
    var g' := if g < k then g else g + 1;
    assert b'.cells[k] == c;
    assert g > k ==> b'.cells[g] == b.cells[g - 1];
    assert g < |b.cells| ==> b'.cells[if g < k then g else g + 1] == b.cells[g];
    assert Gap(b', g') >= spare;
  }

  lemma RoomShrinks(h: Heap, before: seq<Block>, after: seq<Block>, i: nat, k: nat, req: nat, spare: nat)
    requires h.Placed(before, after, i, k, req) && SomeRoom(before, req + OVERHEAD + 24 + spare)
    ensures i < |before| && SomeRoom(after, spare) && HeapStates.Extents(after) == HeapStates.Extents(before)
  {
    var need := req + OVERHEAD + 24;
    var j :| 0 <= j < |before| && HasRoom(before[j], need + spare);
    LessRoom(before[j], need + spare, need);
    assert i < |before|;
    if j == i {
      GapShrinks(before[i], k, after[i].cells[k], need, spare);
    } else {
      LessRoom(before[j], need + spare, spare);
      assert after[j] == before[j];
    }
    assert HasRoom(after[j], spare);
    forall m | 0 <= m < |before|
      ensures HeapStates.ExtentOf(after[m]) == HeapStates.ExtentOf(before[m])
    {
    }
  }

  lemma EntryKeepsPages(h: Heap, blocks: seq<Block>, how: Enqueuing, blocks': seq<Block>, spare: nat)
    requires h.Placed(blocks, how.mid.blocks, how.i, how.k, NODE_SIZE)
    requires h.Placed(how.mid.blocks, blocks', how.j, how.l, COUNT_SIZE)
    requires SomeRoom(blocks, spare + EntryRoom(1))
    ensures SomeRoom(blocks', spare) && HeapStates.Extents(blocks') == HeapStates.Extents(blocks)
  {
    RoomShrinks(h, blocks, how.mid.blocks, how.i, how.k, NODE_SIZE, spare + COUNT_SIZE + OVERHEAD + 24);
    RoomShrinks(h, how.mid.blocks, blocks', how.j, how.l, COUNT_SIZE, spare);
  }

  lemma LessRoom(b: Block, more: nat, need: nat)
    requires HasRoom(b, more) && need <= more
    ensures HasRoom(b, need)
  {
  }

  lemma LessRoomSomewhere(blocks: seq<Block>, more: nat, need: nat)
    requires SomeRoom(blocks, more) && need <= more
    ensures SomeRoom(blocks, need)
  {
    var j :| 0 <= j < |blocks| && HasRoom(blocks[j], more);
    LessRoom(blocks[j], more, need);
  }

  /** An entry's worth of room is used up at each stage, and the heap keeps its pages. */
  lemma {:induction false} StagesKeepPages(h: Heap, pd: nat, segments: seq<Segment>, stages: seq<Stage>, b: Before,
                                           i: nat)
    requires pd < FRAMES && Staged(h, pd, segments, stages, b) && i < |stages|
    requires SomeRoom(b.blocks, EntryRoom(|segments|))
    ensures Grown(b, stages[i].blocks) == {} && SomeRoom(stages[i].blocks, EntryRoom(|segments| - i))
  {
    if i > 0 {
      StagesKeepPages(h, pd, segments, stages, b, i - 1);
      var s, st, next := segments[i - 1], stages[i - 1], stages[i];
      var spare := EntryRoom(|segments| - i);
      assert EntryRoom(|segments| - (i - 1)) == spare + EntryRoom(1);
      assert StageFollows(h, pd, s, st, next);
      if Wanted(s) {
        var how :| Enqueued(h, pd, s, st, how, next);
        EntryKeepsPages(h, st.blocks, how, next.blocks, spare);
      } else {
        LessRoomSomewhere(st.blocks, spare + EntryRoom(1), spare);
      }
    }
  }
}
