/**
 A loaded program among everything else that goes on: its memory survives any page and
 heap operations of others, and once it is unloaded nothing of it is left.
 */
module ElfRuns {
  import opened BitSets
  import opened PageFrames
  import opened PageTables
  import opened Mmus
  import opened PagingRuns
  import opened HeapModel
  import opened HeapLinks
  import HeapStates
  import opened Heaps
  import opened ElfSegments
  import opened ElfTransaction
  import opened ElfLoader
  import S = SharedMemory
  import H = HeapRuns

  lemma HeldAreMapped(h: Heap)
    requires h.Valid()
    ensures h.os.pd < FRAMES && HeldMapped(h.os.mem, h.os.pd, h.os.top, h.others.around.held)
  {
    var around := h.others.around;
    assert h.Shares(h.blocks, Concern.Accounts);
    AllSides(h.os, around.start, around.base, HeapStates.Holdings(around, h.blocks));
    MappedFewer(h.os.mem, h.os.pd, h.os.top, HeapStates.Holdings(around, h.blocks), around.held);
  }

  /** An operation that gives back none of `keep`. */
  predicate Spares(op: S.Op, keep: set<Extent>) {
    op.OnPages? && op.page.Release? ==> op.page.extent !in keep
  }

  lemma KeepsHeld(pd: nat, op: S.Op, s: S.Whole, s': S.Whole, keep: set<Extent>)
    requires pd < FRAMES && S.Next(pd, op, s, s') && keep <= s.held && Spares(op, keep)
    ensures keep <= s'.held && Undisturbed(s.scene.mem, s'.scene.mem, pd, keep)
  {
    assert S.NextIn(S.Own, pd, op, s, s') && S.NextIn(S.Other, pd, op, s, s');
    match op
    case OnPages(page) =>
      var all := StillHeld(page, s.held) + HeapStates.Extents(s.scene.blocks);
      UndisturbedFewer(s.scene.mem, s'.scene.mem, pd, all, keep);
    case OnHeap(_) =>
      UndisturbedFewer(s.scene.mem, s'.scene.mem, pd, s.held, keep);
  }

  /** The program is in memory and holds its pages. */
  ghost predicate InMemory(exe: Executable)
    reads exe, exe.heap.Repr(), exe.heap.others
  {
    && exe.heap.Valid() && exe.Holding(exe.heap.others.around.held) && exe.AllShown(|exe.segments|)
  }

  /** One operation of someone else. */
  method StepBeside(exe: Executable, op: S.Op, view0: H.View, held0: set<Extent>, ghost keep: set<Extent>)
    returns (stop: bool, view: H.View, held: set<Extent>)
    requires exe !in exe.heap.Repr() && H.Agrees(exe.heap, view0) && held0 == exe.heap.others.around.held
    requires InMemory(exe)
    requires ExtentsOf(exe.segments, |exe.segments|) <= keep <= held0 && Spares(op, keep)
    modifies exe.heap.Repr(), exe.heap.others
    ensures old(exe.heap.os.pd) < FRAMES
    ensures stop ==> S.Stops(old(exe.heap.os.pd), op, old(S.Now(exe.heap, view0)), exe.heap.os.frames.Free())
    ensures !stop ==>
              && exe.heap.os.pd == old(exe.heap.os.pd) && exe.heap.os.top == old(exe.heap.os.top)
              && H.Agrees(exe.heap, view) && InMemory(exe)
              && held == exe.heap.others.around.held && keep <= held
              && Undisturbed(old(exe.heap.os.mem), exe.heap.os.mem, exe.heap.os.pd, keep)
              && S.Next(exe.heap.os.pd, op, old(S.Now(exe.heap, view0)), S.Now(exe.heap, view))
              && exe.heap.others.around ==
                 old(exe.heap.others.around).(held := held, seen := exe.heap.others.around.seen)
  {
    ghost var was, s := exe.heap.os.mem, S.Now(exe.heap, view0);
    stop, view, held := S.Step(exe.heap, op, view0, held0);
    if !stop {
      KeepsHeld(exe.heap.os.pd, op, s, S.Now(exe.heap, view), keep);
      StillHolding(exe.segments, held0, held);
      HeldAreMapped(exe.heap);
      MappedFewer(exe.heap.os.mem, exe.heap.os.pd, exe.heap.os.top, held, keep);
      ShownAfterStep(exe.data, was, exe.heap.os.mem, exe.heap.os.pd, exe.heap.os.top, exe.segments, keep, held);
    }
  }

  /** A loaded program's memory survives any operations that do not give back its pages. */
  method RunBeside(exe: Executable, ops: seq<S.Op>, view0: H.View, held0: set<Extent>, ghost keep: set<Extent>)
    returns (stop: bool, view: H.View, held: set<Extent>, ghost states: seq<S.Whole>)
    requires exe !in exe.heap.Repr() && H.Agrees(exe.heap, view0) && held0 == exe.heap.others.around.held
    requires InMemory(exe)
    requires ExtentsOf(exe.segments, |exe.segments|) <= keep <= held0 && forall op <- ops :: Spares(op, keep)
    modifies exe.heap.Repr(), exe.heap.others
    ensures old(exe.heap.os.pd) < FRAMES && 0 < |states| <= |ops| + 1
    ensures S.IsRun(old(exe.heap.os.pd), ops[..|states| - 1], states) && states[0] == old(S.Now(exe.heap, view0))
    ensures stop ==>
              && |states| <= |ops|
              && S.Stops(old(exe.heap.os.pd), ops[|states| - 1], states[|states| - 1], exe.heap.os.frames.Free())
    ensures !stop ==>
              && |states| == |ops| + 1 && states[|ops|] == S.Now(exe.heap, view)
              && exe.heap.os.pd == old(exe.heap.os.pd) && exe.heap.os.top == old(exe.heap.os.top)
              && H.Agrees(exe.heap, view) && InMemory(exe)
              && held == exe.heap.others.around.held && keep <= held
              && Undisturbed(old(exe.heap.os.mem), exe.heap.os.mem, exe.heap.os.pd, keep)
              && exe.heap.others.around ==
                 old(exe.heap.others.around).(held := held, seen := exe.heap.others.around.seen)
  {
    var h := exe.heap;
    stop, view, held, states := false, view0, held0, [S.Now(h, view0)];
    ghost var pd := h.os.pd;
    S.SamePagesTrivially(h.os.mem, pd, keep);
    for k := 0 to |ops|
      invariant h.os.pd == pd && h.os.top == old(h.os.top) && H.Agrees(h, view) && InMemory(exe)
      invariant held == h.others.around.held && keep <= held && Undisturbed(old(h.os.mem), h.os.mem, pd, keep)
      invariant h.others.around == old(h.others.around).(held := held, seen := h.others.around.seen)
      invariant S.IsRun(pd, ops[..k], states) && states[0] == old(S.Now(h, view0)) && states[k] == S.Now(h, view)
    {
      ghost var earlier, was := states, h.os.mem;
      stop, view, held := StepBeside(exe, ops[k], view, held, keep);
      if stop {
        return;
      }
      states := earlier + [S.Now(h, view)];
      S.RunExtends(pd, ops, k, earlier, S.Now(h, view));
      HeapStates.UndisturbedTwice(old(h.os.mem), was, h.os.mem, pd, keep, keep);
    }
    assert ops[..|ops|] == ops;
  }

  lemma OriginOf(exe: Executable)
    requires exe.heap.Valid()
    ensures exe.heap.os.pd < FRAMES
    ensures var b := exe.Beginning();
            && Origin(b, exe.heap.os.pd, exe.heap.os.top, b.start, b.base)
            && Undisturbed(b.mem, b.mem, exe.heap.os.pd, b.held)
  {
    exe.StartsStable();
    assert exe.Steady({}, {}, exe.Beginning(), OfTheRanges);
  }

  /** The client's buffers, after its heap has come back as it was. */
  lemma ClientAgain(h: Heap, blocks: seq<HeapModel.Block>, bytes: HeapStates.Bytes, view: H.View)
    requires h.Valid() && h.blocks == blocks && H.Mirrors(HeapStates.Cells(blocks), bytes, view)
    requires forall c | c in HeapStates.Cells(blocks) :: HeapStates.Kept(bytes, h.bytes, c)
    ensures H.Agrees(h, view)
  {
    forall c | c in HeapStates.Cells(blocks)
      ensures H.Shows(h.bytes, view, c)
    {
      H.StillShows(bytes, h.bytes, blocks, view, c);
    }
  }

  /** A program whose segments are all loaded and none of which is empty. */
  predicate Plain(segments: seq<Segment>) {
    forall i :: 0 <= i < |segments| ==> Wanted(segments[i]) && !Empty(segments, i)
  }

  /** A program just loaded holds its segments. */
  lemma LoadedHolds(exe: Executable, mem0: Memory)
    requires exe.heap.Valid() && exe.heap.os.pd < FRAMES && Plain(exe.segments)
    requires Loadable(mem0, exe.heap.os.pd, exe.segments, |exe.segments|)
    requires ExtentsOf(exe.segments, |exe.segments|) <= exe.heap.others.around.held
    ensures exe.Holding(exe.heap.others.around.held)
  {
    forall i | 0 <= i < |exe.segments|
      ensures SegmentHeld(exe.heap.others.around.held, exe.segments, i)
    {
      assert Acceptable(mem0, exe.heap.os.pd, exe.segments[i]);
    }
  }

  /** Since `b` the others' pages have not moved. */
  ghost predicate Since(h: Heap, b: Before)
    reads h.os, h.others
  {
    && h.os.pd < FRAMES && h.others.around.start == b.start && h.others.around.base == b.base
    && Undisturbed(b.mem, h.os.mem, h.os.pd, b.held) && Origin(b, h.os.pd, h.os.top, b.start, b.base)
  }

  /** Loading, as the program and the client see it. */
  method LoadFirst(exe: Executable, ghost view: H.View, ghost b: Before) returns (r: Loading)
    requires exe !in exe.heap.Repr() && H.Agrees(exe.heap, view) && b == exe.Beginning()
    requires exe.Fits() && !exe.isLoaded && Plain(exe.segments)
    modifies exe, exe.heap.Repr(), exe.heap.others
    ensures r.OutOfFrames? ==> exe.heap.os.frames.Free() == {}
    ensures r.NodeAtNull? ==> exe.NoRoomForEntry()
    ensures r.Finished? ==> exe.heap.os.pd == old(exe.heap.os.pd) && exe.heap.os.top == old(exe.heap.os.top)
    ensures r == Finished(true) ==>
              && InMemory(exe) && exe.isLoaded && H.Agrees(exe.heap, view) && Since(exe.heap, b)
              && b.held !! ExtentsOf(exe.segments, |exe.segments|)
              && exe.heap.others.around.held == b.held + ExtentsOf(exe.segments, |exe.segments|)
    ensures r == Finished(false) ==>
              && SameTranslations(b.mem, exe.heap.os.mem, exe.heap.os.pd)
              && exe.heap.os.frames.Used() == b.used + TableFrames(exe.heap.os.mem, exe.heap.os.pd)
  {
    OriginOf(exe);
    ghost var stages;
    r, stages := exe.LoadSegments();
    if r == Finished(true) {
      LoadableIsWelcome(b.mem, exe.heap.os.pd, exe.segments);
      ClientAgain(exe.heap, b.blocks, b.bytes, view);
      LoadedHolds(exe, b.mem);
    }
  }

  /** Unloading, as the client sees it. */
  method UnloadLast(exe: Executable, ghost view: H.View, ghost b: Before)
    requires exe !in exe.heap.Repr() && H.Agrees(exe.heap, view) && InMemory(exe) && exe.isLoaded && Plain(exe.segments)
    requires Since(exe.heap, b) && b.held <= exe.heap.others.around.held - ExtentsOf(exe.segments, |exe.segments|)
    modifies exe, exe.heap.Repr(), exe.heap.others
    ensures H.Agrees(exe.heap, view) && !exe.isLoaded && Since(exe.heap, b) && exe.heap.os.pd == old(exe.heap.os.pd)
    ensures exe.heap.others.around.held == old(exe.heap.others.around.held) - ExtentsOf(exe.segments, |exe.segments|)
    ensures exe.heap.blocks == old(exe.heap.blocks)
  {
    ghost var was := exe.heap.os.mem;
    var panicked := exe.UnloadSegments();
    HeapStates.UndisturbedTwice(b.mem, was, exe.heap.os.mem, exe.heap.os.pd, b.held, exe.heap.others.around.held);
  }

  /**
   Load, let anything else allocate, free, take and give back pages, unload: nothing of
   the program is held any more. If the others then hold what they held and the heap has
   the blocks it had, every translation is back and only page tables were added.
   */
  method LoadRunUnload(exe: Executable, ops: seq<S.Op>, view0: H.View, held0: set<Extent>)
    returns (r: Loading, stop: bool, view: H.View, ghost states: seq<S.Whole>)
    requires exe !in exe.heap.Repr() && H.Agrees(exe.heap, view0) && held0 == exe.heap.others.around.held
    requires exe.Fits() && !exe.isLoaded && Plain(exe.segments)
    requires forall op <- ops :: Spares(op, held0 + ExtentsOf(exe.segments, |exe.segments|))
    modifies exe, exe.heap.Repr(), exe.heap.others
    ensures r.OutOfFrames? ==> exe.heap.os.frames.Free() == {}
    ensures r.NodeAtNull? ==> exe.NoRoomForEntry()
    ensures old(exe.heap.os.pd) < FRAMES
    ensures r == Finished(true) ==>
              0 < |states| <= |ops| + 1 && S.IsRun(old(exe.heap.os.pd), ops[..|states| - 1], states)
    ensures r == Finished(true) && stop ==>
              && |states| <= |ops|
              && S.Stops(old(exe.heap.os.pd), ops[|states| - 1], states[|states| - 1], exe.heap.os.frames.Free())
    ensures r == Finished(true) && !stop ==>
              && |states| == |ops| + 1 && H.Agrees(exe.heap, view) && !exe.isLoaded
              && exe.heap.others.around.held == states[|ops|].held - ExtentsOf(exe.segments, |exe.segments|)
    ensures r.Finished? && (r.ok ==> !stop)
            && exe.heap.others.around.held == held0 && exe.heap.blocks == old(exe.heap.blocks) ==>
              && exe.heap.os.pd == old(exe.heap.os.pd)
              && SameTranslations(old(exe.heap.os.mem), exe.heap.os.mem, exe.heap.os.pd)
              && exe.heap.os.frames.Used() ==
                 old(exe.heap.os.frames.Used()) + TableFrames(exe.heap.os.mem, exe.heap.os.pd)
  {
    var h, keep := exe.heap, held0 + ExtentsOf(exe.segments, |exe.segments|);
    ghost var b := exe.Beginning();
    stop, view, states := false, view0, [];
    r := LoadFirst(exe, view0, b);
    if r != Finished(true) {
      return;
    }
    ghost var loaded := h.os.mem;
    var held;
    stop, view, held, states := RunBeside(exe, ops, view0, keep, keep);
    if stop {
      return;
    }
    HeapStates.UndisturbedTwice(b.mem, loaded, h.os.mem, h.os.pd, held0, keep);
    UnloadLast(exe, view, b);
    if h.others.around.held == held0 && h.blocks == b.blocks {
      BackAsBefore(h, b);
    }
  }

  // ----- When the heap is in the way -----

  /** Pages that are unmapped, and still are once segment `s` is mapped. */
  ghost predicate FreeBeside(mem: Memory, pd: nat, s: Segment, p: nat, n: nat)
    requires pd < FRAMES
  {
    && p + n <= WINDOW_PAGE
    && forall q: nat | p <= q < p + n :: Unmapped(mem, pd, q) && q !in Pages(ElfSegments.ExtentOf(s))
  }

  /** The lowest such run is where the heap grows once `s` is mapped. */
  lemma WhereTheHeapGrows(mem: Memory, mem': Memory, pd: nat, s: Segment, p: nat, n: nat, at: nat)
    requires pd < FRAMES && n > 0 && at + n <= WINDOW_PAGE
    requires FreeBeside(mem, pd, s, p, n) && forall p': nat | p' < p :: !FreeBeside(mem, pd, s, p', n)
    requires SegmentMapped(pd, s, mem, mem') && LowestRun(mem', pd, n, at)
    ensures at == p
  {
    forall q: nat | p <= q < p + n
      ensures Unmapped(mem', pd, q)
    {
      assert Unmapped(mem, pd, q) && q !in Pages(ElfSegments.ExtentOf(s));
      assert SamePage(mem, mem', pd, q);
    }
    assert Run(mem', pd, p, n);
    forall q: nat | at <= q < at + n
      ensures Unmapped(mem, pd, q) && q !in Pages(ElfSegments.ExtentOf(s))
    {
      assert Unmapped(mem', pd, q) && !Writable(mem', pd, q);
      assert SamePage(mem, mem', pd, q);
    }
    assert FreeBeside(mem, pd, s, at, n);
  }

  lemma GrowsInto(h: Heap, pd: nat, s: Segment, b: Before, how: Enqueuing, next: Stage, p: nat)
    requires pd < FRAMES && HeapStates.AllBacked(b.mem, pd, b.blocks)
    requires HeapStates.NoRoomIn(b.blocks, |b.blocks|, NODE_SIZE + OVERHEAD + 24)
    requires FreeBeside(b.mem, pd, s, p, 16) && forall p': nat | p' < p :: !FreeBeside(b.mem, pd, s, p', 16)
    requires Enqueued(h, pd, s, Stage(b.blocks, b.mem), how, next)
    ensures Range(p, 16) <= HeldPages(Grown(b, next.blocks))
  {
    var n, mid := |b.blocks|, how.mid.blocks;
    assert h.Placed(b.blocks, mid, how.i, how.k, NODE_SIZE) && HeapOk(mid);
    assert how.i == n;
    var new_ := mid[n];
    assert BlockAt(mid, n) && new_.pages == 16;
    WhereTheHeapGrows(b.mem, how.mem, pd, s, p, 16, new_.addr / 4096);
    var e := HeapStates.ExtentOf(new_);
    assert e == Extent(p, 16) && e in HeapStates.Extents(mid);
    PlacingKeepsRanges(h, mid, next.blocks, how.j, how.l, COUNT_SIZE);
    forall j | 0 <= j < n
      ensures HeapStates.ExtentOf(b.blocks[j]) != e
    {
      assert HeapStates.Backed(b.mem, pd, b.blocks[j]) && HeapStates.BackedPage(b.mem, pd, b.blocks[j], p);
      assert Unmapped(b.mem, pd, p);
    }
    PagesOfOne(Grown(b, next.blocks), e);
  }

  /**
   An input that shows it: two segments, a heap with no room for a list node, and a
   second segment that wants a page of the lowest free run of 16. However loadable the
   two are, the list node for the first takes the page, and the second is refused.
   */
  method HeapInTheWay(exe: Executable, ghost p: nat) returns (r: Loading)
    requires exe !in exe.heap.Repr() && exe.heap.Valid() && exe.Fits() && !exe.isLoaded
    requires |exe.segments| == 2 && Wanted(exe.segments[0]) && Wanted(exe.segments[1])
    requires HeapStates.NoRoomIn(exe.heap.blocks, |exe.heap.blocks|, NODE_SIZE + OVERHEAD + 24)
    requires exe.heap.os.pd < FRAMES && FreeBeside(exe.heap.os.mem, exe.heap.os.pd, exe.segments[0], p, 16)
    requires forall p': nat | p' < p :: !FreeBeside(exe.heap.os.mem, exe.heap.os.pd, exe.segments[0], p', 16)
    requires Range(p, 16) * Pages(ElfSegments.ExtentOf(exe.segments[1])) != {}
    modifies exe, exe.heap.Repr(), exe.heap.others
    ensures r != Finished(true)
  {
    ghost var b, pd := exe.Beginning(), exe.heap.os.pd;
    assert exe.heap.Shares(exe.heap.blocks, Places);
    ghost var stages;
    r, stages := exe.LoadSegments();
    if r == Finished(true) {
      SecondObstructed(exe.heap, pd, exe.segments, stages, b, p);
      assert false;
    }
  }

  lemma SecondObstructed(h: Heap, pd: nat, segments: seq<Segment>, stages: seq<Stage>, b: Before, p: nat)
    requires pd < FRAMES && HeapStates.AllBacked(b.mem, pd, b.blocks) && |segments| == 2 && |stages| == 3
    requires Wanted(segments[0]) && Wanted(segments[1]) && Staged(h, pd, segments, stages, b)
    requires HeapStates.NoRoomIn(b.blocks, |b.blocks|, NODE_SIZE + OVERHEAD + 24)
    requires FreeBeside(b.mem, pd, segments[0], p, 16)
    requires forall p': nat | p' < p :: !FreeBeside(b.mem, pd, segments[0], p', 16)
    requires Range(p, 16) * Pages(ElfSegments.ExtentOf(segments[1])) != {}
    ensures !Unobstructed(segments, stages, b, 1)
  {
    assert StageFollows(h, pd, segments[0], stages[0], stages[1]);
    var how :| Enqueued(h, pd, segments[0], stages[0], how, stages[1]);
    GrowsInto(h, pd, segments[0], b, how, stages[1], p);
  }
}
