/**
 One address space shared by the heap and everyone else who holds pages. Page
 operations of the others leave the heap and every payload alone, heap operations
 leave the others' pages alone, and any interleaving of both accounts for every frame.
 */
module SharedMemory {
  import opened PageFrames
  import opened PageTables
  import opened Mmus
  import P = PagingRuns
  import opened HeapModel
  import opened HeapStates
  import opened Heaps
  import H = HeapRuns

  type Extent = P.Extent

  // ----- The heap and the others never meet -----

  /** The heap's pages are nobody else's, and neither are the frames behind them. */
  lemma NeverMeet(h: Heap, i: nat, e: Extent)
    requires h.Valid() && i < |h.blocks| && e in h.others.around.held
    ensures P.Pages(ExtentOf(h.blocks[i])) !! P.Pages(e)
    ensures P.FramesOf(h.os.mem, h.os.pd, P.Pages(ExtentOf(h.blocks[i]))) !! P.FramesOf(h.os.mem, h.os.pd, P.Pages(e))
  {
    var around, b := h.others.around, ExtentOf(h.blocks[i]);
    var held := Holdings(around, h.blocks);
    assert h.Shares(h.blocks, Accounts) && h.Shares(h.blocks, Places);
    P.AllSides(h.os, around.start, around.base, held);
    assert b in Extents(h.blocks);
    assert P.NoOverlap(held, b, e);
    P.PagesOfOne(held, b);
    P.PagesOfOne(held, e);
    P.FramesApart(h.os.mem, h.os.pd, h.os.top, h.os.FrameSets(), h.os.owner, P.Pages(b), P.Pages(e));
  }

  /** Every frame in use was in use at the start, holds a page table, or backs a page someone holds. */
  lemma EveryFrameAccounted(h: Heap)
    requires h.Valid()
    ensures var around, pages := h.others.around, P.HeldPages(Holdings(h.others.around, h.blocks));
            && h.os.pd < FRAMES
            && h.os.frames.Used()
               == around.base + TableFrames(h.os.mem, h.os.pd) + P.FramesOf(h.os.mem, h.os.pd, pages)
            && around.base !! P.FramesOf(h.os.mem, h.os.pd, pages)
  {
    assert h.Shares(h.blocks, Accounts);
    P.AllSides(h.os, h.others.around.start, h.others.around.base, Holdings(h.others.around, h.blocks));
  }

  /** A heap on a machine that has just turned paging on: nothing is held yet. */
  method Start(m: Mmu) returns (h: Heap)
    requires m.Valid()
    ensures H.Agrees(h, map[]) && h.os == m && h.others.around == Around({}, m.frames.Used(), m.mem, m.mem)
    ensures fresh(h) && fresh(h.others)
  {
    var holders := new Others(m);
    P.StartRun(m);
    SamePagesTrivially(m.mem, m.pd, {});
    h := new Heap(m, holders);
    assert Cells([]) == {};
  }

  // ----- What others do -----

  lemma SamePagesTrivially(mem: Memory, pd: nat, held: set<Extent>)
    requires pd < FRAMES
    ensures P.Undisturbed(mem, mem, pd, held)
  {
  }

  /** The others take note of where their pages are. */
  method LookAround(h: Heap)
    requires h.Valid()
    modifies h.others
    ensures h.Valid() && h.others.around == old(h.others.around).(seen := h.os.mem)
  {
    ghost var around := h.others.around;
    assert h.Shares(h.blocks, Accounts) && h.Shares(h.blocks, Places);
    h.others.around := around.(seen := h.os.mem);
    SamePagesTrivially(h.os.mem, h.os.pd, around.held);
    assert Holdings(h.others.around, h.blocks) == Holdings(around, h.blocks);
    assert h.Shares(h.blocks, Accounts) && h.Shares(h.blocks, Places);
  }

  /** The others hold `held` now; the heap is where it was. */
  lemma Resettled(h: Heap, was: Memory, around: Around, held: set<Extent>)
    requires h.os.pd < FRAMES && h.others !in h.os.Repr() && h.others.around == around.(held := held, seen := h.os.mem)
    requires Housed(was, h.os.pd, around, h.blocks) && held !! Extents(h.blocks)
    requires P.Undisturbed(was, h.os.mem, h.os.pd, around.held * held + Extents(h.blocks))
    requires P.Reached(h.os, around.start, around.base, held + Extents(h.blocks))
    ensures h.Settled(h.blocks)
  {
    var kept := around.(held := around.held * held);
    HousedFewer(was, h.os.pd, around, h.blocks, kept.held);
    HousedStays(was, h.os.mem, h.os.pd, kept, h.blocks);
    SamePagesTrivially(h.os.mem, h.os.pd, held);
    assert Holdings(h.others.around, h.blocks) == held + Extents(h.blocks);
    assert h.Shares(h.blocks, Accounts) && h.Shares(h.blocks, Places);
  }

  lemma HousedFewer(mem: Memory, pd: nat, around: Around, blocks: seq<Block>, held: set<Extent>)
    requires pd < FRAMES && Housed(mem, pd, around, blocks) && held <= around.held
    ensures Housed(mem, pd, around.(held := held), blocks)
  {
    PagesOfMore(held, around.held);
  }

  /** Beside a heap: the page operation leaves the heap valid and everyone's pages in place. */
  twostate predicate Beside(h: Heap, held: set<Extent>)
    reads h, h.os.Repr(), h.others
  {
    && h.Valid() && h.os.pd == old(h.os.pd) && h.os.top == old(h.os.top)
    && h.others.around == old(h.others.around).(held := held, seen := h.os.mem)
    && P.Undisturbed(old(h.os.mem), h.os.mem, h.os.pd, old(h.others.around.held) * held + Extents(h.blocks))
  }

  /** Someone asks for `n` pages anywhere. */
  method TakeAnywhere(h: Heap, n: nat) returns (r: Outcome)
    requires h.Valid()
    modifies h.others, h.os.Repr()
    ensures r.Panicked? ==> h.os.frames.Free() == {}
    ensures old(h.os.pd) < FRAMES
    ensures r.Panicked? <==> old(h.os.FreeCount()) < FramesNeeded(old(h.os.mem), old(h.os.pd), n)
    ensures r.Done? ==> (r.address != 0 <==> P.HasRun(old(h.os.mem), old(h.os.pd), n))
    ensures n == 0 ==> h.os.mem == old(h.os.mem) && h.os.frames.Used() == old(h.os.frames.Used())
    ensures r.Done? && n > 0 ==>
              h.os.pd == old(h.os.pd) && Sought(old(h.os.mem), h.os.mem, h.os.pd, n, r.address / 0x1000)
    ensures r == Done(0) ==>
              && Beside(h, old(h.others.around.held))
              && OnlyTables(old(h.os.mem), old(h.os.frames.Used()), h.os.mem, h.os.frames.Used(), h.os.pd)
    ensures r.Done? && r.address != 0 ==>
              var p := r.address / 0x1000;
              && r.address == p * 0x1000 && p + n <= WINDOW_PAGE
              && P.Extent(p, n) !in old(h.others.around.held) && Beside(h, old(h.others.around.held) + {P.Extent(p, n)})
              && LowestRun(old(h.os.mem), h.os.pd, n, p)
              && Allocated(old(h.os.mem), old(h.os.frames.Used()), h.os.mem, h.os.frames.Used(), h.os.pd, p, n)
  {
    ghost var was, around := h.os.mem, h.others.around;
    ghost var all := Holdings(around, h.blocks);
    assert h.Shares(h.blocks, Accounts) && h.Shares(h.blocks, Places);
    r := P.AllocateAnywhere(h.os, n, all, around.start, around.base);
    if r.Panicked? {
      return;
    }
    ghost var held := if r.address == 0 then around.held else around.held + {P.Extent(r.address / 0x1000, n)};
    assert held - around.held == if r.address == 0 then {} else {P.Extent(r.address / 0x1000, n)};
    assert all + {} == all;
    Shared(around, h.blocks, held);
    Adopt(h, was, around, held);
  }

  /** What an allocation for the others means for the two parts of the holdings. */
  lemma Shared(around: Around, blocks: seq<Block>, held: set<Extent>)
    requires around.held <= held
    ensures around.held * held + Extents(blocks) == Holdings(around, blocks)
    ensures held + Extents(blocks) == Holdings(around, blocks) + (held - around.held)
  {
    assert around.held * held == around.held;
  }

  /** The others' holdings after a page operation. */
  method Adopt(h: Heap, ghost was: Memory, ghost around: Around, ghost held: set<Extent>)
    requires h.os.pd < FRAMES && h.others !in h.os.Repr() && h.others.around == around
    requires Housed(was, h.os.pd, around, h.blocks) && held !! Extents(h.blocks)
    requires P.Undisturbed(was, h.os.mem, h.os.pd, around.held * held + Extents(h.blocks))
    requires P.Reached(h.os, around.start, around.base, held + Extents(h.blocks))
    modifies h.others
    ensures h.Settled(h.blocks) && h.others.around == around.(held := held, seen := h.os.mem)
  {
    h.others.around := around.(held := held, seen := h.os.mem);
    Resettled(h, was, around, held);
  }

  /** Someone asks for `n` pages at a given address. */
  method TakeAt(h: Heap, va: nat, n: nat) returns (r: Outcome)
    requires h.Valid() && va / 0x1000 + n <= WINDOW_PAGE
    modifies h.others, h.os.Repr()
    ensures r.Panicked? ==> h.os.frames.Free() == {}
    ensures old(h.os.pd) < FRAMES
    ensures r.Panicked? <==>
              va % 0x1000 == 0 && old(h.os.FreeCount()) < FramesNeededAt(old(h.os.mem), old(h.os.pd), va / 0x1000, n)
    ensures r.Done? ==>
              (r.address != 0 <==> va != 0 && va % 0x1000 == 0 && Run(old(h.os.mem), old(h.os.pd), va / 0x1000, n))
    ensures r.Done? ==>
              && h.os.pd == old(h.os.pd)
              && TablesMade(old(h.os.mem), h.os.mem, h.os.pd, SlotsLooked(old(h.os.mem), h.os.pd, va, n))
    ensures r == Done(0) ==>
              && Beside(h, old(h.others.around.held))
              && OnlyTables(old(h.os.mem), old(h.os.frames.Used()), h.os.mem, h.os.frames.Used(), h.os.pd)
    ensures r.Done? && r.address != 0 ==>
              && r.address == va && Beside(h, P.WithRange(old(h.others.around.held), va / 0x1000, n))
              && (n > 0 ==> P.Extent(va / 0x1000, n) !in old(Holdings(h.others.around, h.blocks)))
              && Allocated(old(h.os.mem), old(h.os.frames.Used()), h.os.mem, h.os.frames.Used(), h.os.pd,
                           va / 0x1000, n)
  {
    ghost var was, around := h.os.mem, h.others.around;
    ghost var all := Holdings(around, h.blocks);
    assert h.Shares(h.blocks, Accounts) && h.Shares(h.blocks, Places);
    r := P.AllocateAt(h.os, va, n, all, around.start, around.base);
    if r.Panicked? {
      return;
    }
    ghost var held := if r.address == 0 then around.held else P.WithRange(around.held, va / 0x1000, n);
    assert held - around.held == if r.address == 0 || n == 0 then {} else {P.Extent(va / 0x1000, n)};
    assert all + {} == all;
    Shared(around, h.blocks, held);
    Adopt(h, was, around, held);
  }

  /** Someone gives back a range. */
  method GiveBack(h: Heap, e: Extent)
    requires h.Valid() && e in h.others.around.held
    modifies h.others, h.os.Repr()
    ensures Beside(h, old(h.others.around.held) - {e}) && e.page + e.pages <= WINDOW_PAGE
    ensures FreedPages(old(h.os.mem), old(h.os.frames.Used()), h.os.mem, h.os.frames.Used(), h.os.pd, e.page, e.pages)
  {
    ghost var was, around := h.os.mem, h.others.around;
    ghost var all := Holdings(around, h.blocks);
    assert h.Shares(h.blocks, Accounts) && h.Shares(h.blocks, Places);
    P.ReleaseExtent(h.os, e, all, around.start, around.base);
    ghost var held := around.held - {e};
    assert held + Extents(h.blocks) == all - {e} && around.held * held + Extents(h.blocks) == all - {e};
    Adopt(h, was, around, held);
  }

  // ----- Whole runs -----

  datatype Op = OnPages(page: P.Op) | OnHeap(heap: H.Op)

  /** A state of the run: the heap with its client's buffers, the frames in use, the ranges the others hold. */
  datatype Whole = Whole(scene: H.Scene, used: set<nat>, held: set<Extent>)

  ghost function Paging(s: Whole): P.Moment {
    P.Moment(s.scene.mem, s.used, s.held)
  }

  ghost function Now(h: Heap, view: H.View): Whole
    reads h, h.os, h.os.frames, h.os.frames.used, h.others
  {
    Whole(H.Now(h, view), h.os.frames.Used(), h.others.around.held)
  }

  /** What an operation is about, and what it is not about. */
  datatype Half = Own | Other

  /** Each operation does what it does alone, and leaves the other side as it was. */
  ghost predicate Next(pd: nat, op: Op, s: Whole, s': Whole)
    requires pd < FRAMES
  {
    forall half: Half :: NextIn(half, pd, op, s, s')
  }

  ghost predicate NextIn(half: Half, pd: nat, op: Op, s: Whole, s': Whole)
    requires pd < FRAMES
  {
    match op
    case OnPages(page) =>
      (match half
       case Own => P.Next(pd, page, Paging(s), Paging(s'))
       case Other =>
         && s'.scene == s.scene.(mem := s'.scene.mem)
         && P.Undisturbed(s.scene.mem, s'.scene.mem, pd, P.StillHeld(page, s.held) + Extents(s.scene.blocks)))
    case OnHeap(heap) =>
      match half
      case Own => H.Next(pd, heap, s.scene, s'.scene)
      case Other => s'.held == s.held && P.Undisturbed(s.scene.mem, s'.scene.mem, pd, s.held)
  }

  ghost predicate IsRun(pd: nat, ops: seq<Op>, states: seq<Whole>)
    requires pd < FRAMES
  {
    && |states| == |ops| + 1
    && (forall k :: 0 <= k < |ops| ==> Next(pd, ops[k], states[k], states[k + 1]))
    && (forall k :: 0 <= k < |states| ==> H.Coherent(states[k].scene))
  }

  /** Why an operation stops the run. */
  ghost predicate Stops(pd: nat, op: Op, s: Whole, free: set<nat>)
    requires pd < FRAMES
  {
    match op
    case OnPages(page) => P.Demand(pd, page, s.scene.mem) > 0 && free == {}
    case OnHeap(heap) => H.Stops(pd, heap, s.scene, free)
  }

  /** A heap operation leaves the others' pages where they are. */
  method StepHeap(h: Heap, op: H.Op, view0: H.View) returns (stop: bool, view: H.View)
    requires H.Agrees(h, view0)
    modifies h.Repr(), h.others
    ensures old(h.os.pd) < FRAMES
    ensures stop ==> H.Stops(old(h.os.pd), op, old(H.Now(h, view0)), h.os.frames.Free())
    ensures !stop ==>
              && h.os.pd == old(h.os.pd) && h.os.top == old(h.os.top) && H.Agrees(h, view)
              && Next(h.os.pd, OnHeap(op), old(Now(h, view0)), Now(h, view))
    ensures h.others.around == old(h.others.around).(seen := old(h.os.mem))
  {
    LookAround(h);
    stop, view := H.Step(h, op, view0);
    if !stop {
      assert h.Shares(h.blocks, Places);
    }
  }

  /** A page operation leaves the heap and every payload alone. */
  method StepPages(h: Heap, op: P.Op, held0: set<Extent>, ghost view: H.View) returns (stop: bool, held: set<Extent>)
    requires H.Agrees(h, view) && held0 == h.others.around.held
    modifies h.others, h.os.Repr()
    ensures old(h.os.pd) < FRAMES
    ensures stop ==> h.os.frames.Free() == {}
    ensures stop <==> old(h.os.FreeCount()) < P.Demand(old(h.os.pd), op, old(h.os.mem))
    ensures !stop ==> PagesStepped(h, op, view, held)
  {
    stop, held := false, held0;
    match op
    case Anywhere(n) =>
      stop, held := StepAnywhere(h, n, held0, view);
    case At(va, n) =>
      stop, held := StepAt(h, va, n, held0, view);
    case Release(e) =>
      held := StepRelease(h, e, held0, view);
  }

  method StepAnywhere(h: Heap, n: nat, held0: set<Extent>, ghost view: H.View)
    returns (stop: bool, held: set<Extent>)
    requires H.Agrees(h, view) && held0 == h.others.around.held
    modifies h.others, h.os.Repr()
    ensures old(h.os.pd) < FRAMES
    ensures stop ==> h.os.frames.Free() == {}
    ensures stop <==> old(h.os.FreeCount()) < FramesNeeded(old(h.os.mem), old(h.os.pd), n)
    ensures !stop ==> PagesStepped(h, P.Anywhere(n), view, held)
  {
    held := held0;
    ghost var s := Now(h, view);
    var r := TakeAnywhere(h, n);
    stop := r.Panicked?;
    if r.Done? && r.address != 0 {
      held := held0 + {P.Extent(r.address / 0x1000, n)};
      assert P.Takes(h.os.pd, Paging(s), Paging(Now(h, view)), r.address / 0x1000, n);
    }
    if r.Done? {
      P.NextAnywhere(h.os.pd, Paging(s), Paging(Now(h, view)), n, r.address / 0x1000);
    }
    assert held0 * held == held0;
  }

  method StepAt(h: Heap, va: nat, n: nat, held0: set<Extent>, ghost view: H.View)
    returns (stop: bool, held: set<Extent>)
    requires H.Agrees(h, view) && held0 == h.others.around.held
    modifies h.others, h.os.Repr()
    ensures old(h.os.pd) < FRAMES
    ensures stop ==> h.os.frames.Free() == {}
    ensures stop <==> old(h.os.FreeCount()) < P.Demand(old(h.os.pd), P.At(va, n), old(h.os.mem))
    ensures !stop ==> PagesStepped(h, P.At(va, n), view, held)
  {
    stop, held := false, held0;
    ghost var s := Now(h, view);
    SamePagesTrivially(h.os.mem, h.os.pd, held0 + Extents(h.blocks));
    if va / 0x1000 + n <= WINDOW_PAGE {
      var r := TakeAt(h, va, n);
      stop := r.Panicked?;
      if r.Done? && r.address != 0 {
        held := P.WithRange(held0, va / 0x1000, n);
      }
      if r.Done? {
        P.NextAt(h.os.pd, Paging(s), Paging(Now(h, view)), va, n, r.address != 0);
      }
      assert held0 * held == held0;
    }
  }

  method StepRelease(h: Heap, e: Extent, held0: set<Extent>, ghost view: H.View) returns (held: set<Extent>)
    requires H.Agrees(h, view) && held0 == h.others.around.held
    modifies h.others, h.os.Repr()
    ensures PagesStepped(h, P.Release(e), view, held)
  {
    held := held0;
    SamePagesTrivially(h.os.mem, h.os.pd, held0 + Extents(h.blocks));
    if e in held {
      GiveBack(h, e);
      held := held - {e};
      assert held0 * held == held0 - {e};
    } else {
      assert held0 - {e} == held0;
    }
  }

  /** What a page operation has done. */
  twostate predicate PagesStepped(h: Heap, op: P.Op, view: H.View, held: set<Extent>)
    reads h, h.os.Repr(), h.others
  {
    && h.os.pd == old(h.os.pd) && h.os.top == old(h.os.top) && H.Agrees(h, view)
    && held == h.others.around.held && h.os.pd < FRAMES
    && Next(h.os.pd, OnPages(op), old(Now(h, view)), Now(h, view))
    && h.others.around == old(h.others.around).(held := held, seen := h.others.around.seen)
  }

  /**
   Any interleaving of heap operations and page operations: each does what it does
   alone and leaves the other side as it was, and only running out of frames or a
   `realloc` that would copy to address 0 stops the run.
   */
  method Execute(h: Heap, ops: seq<Op>, view0: H.View, held0: set<Extent>)
    returns (stop: bool, view: H.View, held: set<Extent>, ghost states: seq<Whole>)
    requires H.Agrees(h, view0) && held0 == h.others.around.held
    modifies h.Repr(), h.others
    ensures old(h.os.pd) < FRAMES && 0 < |states| <= |ops| + 1 && IsRun(old(h.os.pd), ops[..|states| - 1], states)
    ensures states[0] == old(Now(h, view0))
    ensures stop ==>
              |states| <= |ops| && Stops(old(h.os.pd), ops[|states| - 1], states[|states| - 1], h.os.frames.Free())
    ensures !stop ==>
              && |states| == |ops| + 1 && h.os.pd == old(h.os.pd) && h.os.top == old(h.os.top) && H.Agrees(h, view)
              && held == h.others.around.held
              && states[|ops|] == Now(h, view)
  {
    stop, view, held, states := false, view0, held0, [Now(h, view0)];
    ghost var pd := h.os.pd;
    for k := 0 to |ops|
      invariant h.os.pd == pd && h.os.top == old(h.os.top) && H.Agrees(h, view) && held == h.others.around.held
      invariant IsRun(pd, ops[..k], states) && states[0] == old(Now(h, view0)) && states[k] == Now(h, view)
    {
      ghost var earlier := states;
      stop, view, held := Step(h, ops[k], view, held);
      if stop {
        return;
      }
      states := earlier + [Now(h, view)];
      RunExtends(pd, ops, k, earlier, Now(h, view));
    }
    assert ops[..|ops|] == ops;
  }

  method Step(h: Heap, op: Op, view0: H.View, held0: set<Extent>) returns (stop: bool, view: H.View, held: set<Extent>)
    requires H.Agrees(h, view0) && held0 == h.others.around.held
    modifies h.Repr(), h.others
    ensures old(h.os.pd) < FRAMES
    ensures stop ==> Stops(old(h.os.pd), op, old(Now(h, view0)), h.os.frames.Free())
    ensures !stop ==>
              && h.os.pd == old(h.os.pd) && h.os.top == old(h.os.top) && H.Agrees(h, view)
              && held == h.others.around.held
              && Next(h.os.pd, op, old(Now(h, view0)), Now(h, view))
              && h.others.around == old(h.others.around).(held := held, seen := h.others.around.seen)
  {
    stop, view, held := false, view0, held0;
    match op
    case OnPages(page) =>
      stop, held := StepPages(h, page, held0, view0);
    case OnHeap(heap) =>
      stop, view := StepHeap(h, heap, view0);
  }

  lemma RunExtends(pd: nat, ops: seq<Op>, k: nat, states: seq<Whole>, s: Whole)
    requires pd < FRAMES && k < |ops| && IsRun(pd, ops[..k], states) && Next(pd, ops[k], states[k], s)
    requires H.Coherent(s.scene)
    ensures IsRun(pd, ops[..k + 1], states + [s])
  {
    var longer := states + [s];
    forall i | 0 <= i < k + 1
      ensures Next(pd, ops[..k + 1][i], longer[i], longer[i + 1])
    {
      if i < k {
        assert ops[..k][i] == ops[i] && Next(pd, ops[..k][i], states[i], states[i + 1]);
      }
    }
  }
}
