/**
 Loading an executable's segments: a transaction over page allocation at fixed
 addresses, with a list of what to clean up kept on the heap. Either every segment is
 mapped and filled, or every translation is what it was before; the heap is what it was
 either way. While the list is kept the heap may grow, and what it takes a later
 segment cannot have.
 */
module ElfLoader {
  import opened PageFrames
  import opened PageTables
  import opened Mmus
  import opened PagingRuns
  import opened HeapModel
  import opened HeapLinks
  import HeapStates
  import opened Heaps
  import opened HeapLoans
  import opened ElfSegments
  import opened ElfTransaction
  import S = SharedMemory
  import H = HeapRuns

  type Block = HeapModel.Block

  /**
   How loading ends: a panic when frames run out, a list node written to address 0 when
   the heap is exhausted, since that is not checked, or the result returned.
   */
  datatype Loading = OutOfFrames | NodeAtNull | Finished(ok: bool)

  datatype Matter = OfTheHeap | OfTheRanges

  class Executable {
    const heap: Heap
    const segments: seq<Segment>
    /** Physical memory of data pages. */
    var data: Physical
    var isLoaded: bool

    constructor (h: Heap, list: seq<Segment>, contents: Physical)
      ensures heap == h && segments == list && data == contents && !isLoaded
    {
      heap, segments, data, isLoaded := h, list, contents, false;
    }

    // ----- Writing memory -----

    method StoreByte(va: nat, v: nat)
      requires heap.os.Valid() && Dynamic(heap.os.mem, heap.os.pd, heap.os.top, va)
      modifies `data
      ensures Shown(data, heap.os.mem, heap.os.pd, va, v)
      ensures Untouched(old(data), data, heap.os.mem, heap.os.pd, heap.os.top, va, va + 1)
    {
      var frame := Walk(heap.os.mem, heap.os.pd, va / 0x1000).value;
      data := data[frame * 0x1000 + va % 0x1000 := v];
      ghost var hi := va + 1;
      forall w: nat, x: nat
        ensures UntouchedAt(old(data), data, heap.os.mem, heap.os.pd, heap.os.top, va, hi, w, x)
      {
        if w != va && Dynamic(heap.os.mem, heap.os.pd, heap.os.top, w) {
          BytesApart(heap.os, va, w);
        }
      }
    }

    method MemSet(va: nat, v: nat, n: nat)
      requires heap.os.Valid() && AllDynamic(heap.os.mem, heap.os.pd, heap.os.top, va, n)
      modifies `data
      ensures forall w: nat | va <= w < va + n :: Shown(data, heap.os.mem, heap.os.pd, w, v)
      ensures Untouched(old(data), data, heap.os.mem, heap.os.pd, heap.os.top, va, va + n)
    {
      for i := 0 to n
        invariant forall w: nat | va <= w < va + i :: Shown(data, heap.os.mem, heap.os.pd, w, v)
        invariant Untouched(old(data), data, heap.os.mem, heap.os.pd, heap.os.top, va, va + i)
      {
        ghost var was := data;
        assert Dynamic(heap.os.mem, heap.os.pd, heap.os.top, va + i);
        StoreByte(va + i, v);
        Widen(old(data), was, data, heap.os.mem, heap.os.pd, heap.os.top, va, va + i);
        forall w: nat | va <= w < va + i
          ensures Shown(data, heap.os.mem, heap.os.pd, w, v)
        {
          assert Dynamic(heap.os.mem, heap.os.pd, heap.os.top, w);
          assert UntouchedAt(was, data, heap.os.mem, heap.os.pd, heap.os.top, va + i, va + i + 1, w, v);
        }
      }
    }

    lemma Widen(data0: Physical, data1: Physical, data2: Physical, mem: Memory, pd: nat, top: nat, lo: nat, hi: nat)
      requires pd < FRAMES && lo <= hi
      requires Untouched(data0, data1, mem, pd, top, lo, hi) && Untouched(data1, data2, mem, pd, top, hi, hi + 1)
      ensures Untouched(data0, data2, mem, pd, top, lo, hi + 1)
    {
      var hi' := hi + 1;
      forall w: nat, v: nat
        ensures UntouchedAt(data0, data2, mem, pd, top, lo, hi', w, v)
      {
        assert UntouchedAt(data0, data1, mem, pd, top, lo, hi, w, v);
        assert UntouchedAt(data1, data2, mem, pd, top, hi, hi', w, v);
      }
    }

    method MemCpy(va: nat, src: seq<nat>)
      requires heap.os.Valid() && AllDynamic(heap.os.mem, heap.os.pd, heap.os.top, va, |src|)
      modifies `data
      ensures forall i | 0 <= i < |src| :: Shown(data, heap.os.mem, heap.os.pd, va + i, src[i])
      ensures Untouched(old(data), data, heap.os.mem, heap.os.pd, heap.os.top, va, va + |src|)
    {
      for i := 0 to |src|
        invariant forall j | 0 <= j < i :: Shown(data, heap.os.mem, heap.os.pd, va + j, src[j])
        invariant Untouched(old(data), data, heap.os.mem, heap.os.pd, heap.os.top, va, va + i)
      {
        ghost var was := data;
        assert Dynamic(heap.os.mem, heap.os.pd, heap.os.top, va + i);
        StoreByte(va + i, src[i]);
        Widen(old(data), was, data, heap.os.mem, heap.os.pd, heap.os.top, va, va + i);
        forall j | 0 <= j < i
          ensures Shown(data, heap.os.mem, heap.os.pd, va + j, src[j])
        {
          assert Dynamic(heap.os.mem, heap.os.pd, heap.os.top, va + j);
          assert UntouchedAt(was, data, heap.os.mem, heap.os.pd, heap.os.top, va + i, va + i + 1, va + j, src[j]);
        }
      }
    }

    // ----- One segment -----

    /** Clears a mapped segment's memory and copies its file bytes to the front. */
    method Fill(s: Segment)
      requires heap.os.Valid() && |s.data| <= s.memorySize
      requires AllDynamic(heap.os.mem, heap.os.pd, heap.os.top, s.vaddress, s.memorySize)
      modifies `data
      ensures SegmentShown(data, heap.os.mem, heap.os.pd, s)
      ensures Untouched(old(data), data, heap.os.mem, heap.os.pd, heap.os.top, s.vaddress, s.vaddress + s.memorySize)
    {
      MemSet(s.vaddress, 0, s.memorySize);
      ghost var cleared := data;
      if |s.data| > 0 {
        MemCpy(s.vaddress, s.data);
      }
      forall x: nat
        ensures SegmentByte(data, heap.os.mem, heap.os.pd, s, x)
      {
        if |s.data| <= x < s.memorySize {
          assert Shown(cleared, heap.os.mem, heap.os.pd, s.vaddress + x, 0);
          assert Dynamic(heap.os.mem, heap.os.pd, heap.os.top, s.vaddress + x);
          assert |s.data| > 0 ==> UntouchedAt(cleared, data, heap.os.mem, heap.os.pd, heap.os.top,
                                              s.vaddress, s.vaddress + |s.data|, s.vaddress + x, 0);
        }
      }
      FillUntouched(old(data), cleared, data, heap.os.mem, heap.os.pd, heap.os.top, s);
    }

    lemma FillUntouched(data0: Physical, data1: Physical, data2: Physical, mem: Memory, pd: nat, top: nat, s: Segment)
      requires pd < FRAMES && |s.data| <= s.memorySize
      requires Untouched(data0, data1, mem, pd, top, s.vaddress, s.vaddress + s.memorySize)
      requires data1 == data2 || Untouched(data1, data2, mem, pd, top, s.vaddress, s.vaddress + |s.data|)
      ensures Untouched(data0, data2, mem, pd, top, s.vaddress, s.vaddress + s.memorySize)
    {
      var hi, hi' := s.vaddress + |s.data|, s.vaddress + s.memorySize;
      forall w: nat, v: nat
        ensures UntouchedAt(data0, data2, mem, pd, top, s.vaddress, hi', w, v)
      {
        assert UntouchedAt(data0, data1, mem, pd, top, s.vaddress, hi', w, v);
        assert data1 == data2 || UntouchedAt(data1, data2, mem, pd, top, s.vaddress, hi, w, v);
      }
    }

    // ----- The state of a transaction -----

    /** One matter of the transaction: the heap with what it lends, or the ranges held and the translations. */
    ghost predicate Steady(ranges: set<Extent>, pointers: set<nat>, b: Before, matter: Matter)
      reads heap.Repr(), heap.others
    {
      match matter
      case OfTheHeap => Lending(heap, pointers, b.blocks, b.bytes)
      case OfTheRanges =>
        && heap.os.pd < FRAMES && heap.others.around.held == b.held + ranges && b.held !! ranges
        && heap.others.around.start == b.start && heap.others.around.base == b.base
        && Undisturbed(b.mem, heap.os.mem, heap.os.pd, b.held)
        && Origin(b, heap.os.pd, heap.os.top, b.start, b.base)
    }

    /** Since `b` the program has come to hold `ranges`, and the heap lends `pointers` to the list. */
    ghost predicate Stable(ranges: set<Extent>, pointers: set<nat>, b: Before)
      reads heap.Repr(), heap.others
    {
      heap.os.pd < FRAMES && forall matter: Matter :: Steady(ranges, pointers, b, matter)
    }

    /** What `b` is at the start. */
    ghost function Beginning(): Before
      reads this, heap, heap.os, heap.os.frames, heap.os.frames.used, heap.others
    {
      Before(data, heap.os.mem, heap.os.frames.Used(), heap.others.around.held, heap.blocks, heap.bytes,
             heap.others.around.start, heap.others.around.base)
    }

    /** The heap and the page tables now. */
    ghost function Now(): Stage
      reads heap, heap.os
    {
      Stage(heap.blocks, heap.os.mem)
    }

    lemma StartsStable()
      requires heap.Valid()
      ensures Stable({}, {}, Beginning()) && KeepsOld(data, heap.os.mem, data, heap.os.mem, heap.os.pd, heap.os.top)
    {
      var b, around := Beginning(), heap.others.around;
      assert heap.Shares(heap.blocks, Concern.Accounts) && heap.Shares(heap.blocks, Places);
      AllSides(heap.os, around.start, around.base, HeapStates.Holdings(around, heap.blocks));
      NothingLent(heap.blocks, heap.bytes);
      S.SamePagesTrivially(heap.os.mem, heap.os.pd, b.held);
      assert Steady({}, {}, b, OfTheHeap) && Steady({}, {}, b, OfTheRanges);
    }

    /** What is new since the start, and where it is. */
    lemma NewRanges(ranges: set<Extent>, pointers: set<nat>, b: Before)
      requires Stable(ranges, pointers, b)
      ensures AddsOnly(b.mem, heap.os.mem, heap.os.pd, HeldPages(ranges + Grown(b, heap.blocks)))
      ensures HeldMapped(heap.os.mem, heap.os.pd, heap.os.top, ranges + Grown(b, heap.blocks))
    {
      assert Steady(ranges, pointers, b, OfTheHeap) && Steady(ranges, pointers, b, OfTheRanges);
      var around, blocks := heap.others.around, heap.blocks;
      assert heap.Shares(blocks, Concern.Accounts) && heap.Shares(blocks, Places);
      AllSides(heap.os, around.start, around.base, HeapStates.Holdings(around, blocks));
      LentBlocksRemain(blocks, heap.bytes, pointers, b);
      OnlySinceIsNew(b, heap.os.pd, heap.os.top, around.start, around.base, heap.os.mem, around.held, blocks);
      assert Since(b, around.held, blocks) == ranges + Grown(b, blocks);
      MappedFewer(heap.os.mem, heap.os.pd, heap.os.top, HeapStates.Holdings(around, blocks), ranges + Grown(b, blocks));
    }

    // ----- One segment -----

    /** Maps a segment, exactly when it was loadable and the heap has not taken its pages. */
    method MapNext(k: nat, s: Segment, ghost pointers: set<nat>, ghost b: Before) returns (r: Outcome)
      requires k < |segments| && s == segments[k] && Wanted(s) && WellFormed(s)
      requires Stable(ExtentsOf(segments, k), pointers, b) && Loadable(b.mem, heap.os.pd, segments, k)
      modifies heap.others, heap.os.Repr()
      ensures r.Panicked? ==> heap.os.frames.Free() == {}
      ensures r.Done? ==>
                && heap.os.pd == old(heap.os.pd) && heap.os.top == old(heap.os.top) && heap.os.pd < FRAMES
                && Undisturbed(old(heap.os.mem), heap.os.mem, heap.os.pd, ExtentsOf(segments, k))
                && (r.address != 0 <==>
                      && Loadable(b.mem, heap.os.pd, segments, k + 1)
                      && Pages(ElfSegments.ExtentOf(s)) !! HeldPages(Grown(b, heap.blocks)))
      ensures r == Done(0) ==> Stable(ExtentsOf(segments, k), pointers, b)
      ensures r.Done? && r.address != 0 ==>
                && r.address == s.vaddress && Stable(ExtentsOf(segments, k + 1), pointers, b)
                && SegmentMapped(heap.os.pd, s, old(heap.os.mem), heap.os.mem)
    {
      MapCondition(k, pointers, b);
      ghost var was, ranges := heap.os.mem, ExtentsOf(segments, k);
      assert Steady(ranges, pointers, b, OfTheHeap) && Steady(ranges, pointers, b, OfTheRanges);
      ghost var before := heap.others.around.held;
      assert s.vaddress != 0 && s.vaddress % 0x1000 == 0 ==> s.vaddress / 0x1000 * 0x1000 == s.vaddress;
      r := S.TakeAt(heap, s.vaddress, PageCount(s));
      if r.Done? {
        NextExtent(segments, k);
        assert WithRange(before, s.vaddress / 0x1000, PageCount(s)) == b.held + ExtentsOf(segments, k + 1);
        Taken(was, ranges, if r.address == 0 then ranges else ExtentsOf(segments, k + 1), pointers, b);
      }
    }

    /** A segment is accepted exactly when it was loadable and the heap has not taken its pages. */
    lemma MapCondition(k: nat, pointers: set<nat>, b: Before)
      requires k < |segments| && Wanted(segments[k]) && WellFormed(segments[k])
      requires Stable(ExtentsOf(segments, k), pointers, b) && Loadable(b.mem, heap.os.pd, segments, k)
      ensures Acceptable(heap.os.mem, heap.os.pd, segments[k]) <==>
                && Loadable(b.mem, heap.os.pd, segments, k + 1)
                && Pages(ElfSegments.ExtentOf(segments[k])) !! HeldPages(Grown(b, heap.blocks))
    {
      NewRanges(ExtentsOf(segments, k), pointers, b);
      NextLoadable(b.mem, heap.os.mem, heap.os.pd, heap.os.top, segments, k, Grown(b, heap.blocks));
    }

    /** The program holds `more` than before. */
    lemma Taken(was: Memory, ranges: set<Extent>, more: set<Extent>, pointers: set<nat>, b: Before)
      requires heap.os.pd < FRAMES && ranges <= more && b.held !! more && heap.others.around.held == b.held + more
      requires Lending(heap, pointers, b.blocks, b.bytes) && Undisturbed(b.mem, was, heap.os.pd, b.held)
      requires heap.others.around.start == b.start && heap.others.around.base == b.base
      requires Origin(b, heap.os.pd, heap.os.top, b.start, b.base)
      requires Undisturbed(was, heap.os.mem, heap.os.pd,
                           (b.held + ranges) * (b.held + more) + HeapStates.Extents(heap.blocks))
      ensures Stable(more, pointers, b) && Undisturbed(was, heap.os.mem, heap.os.pd, ranges)
    {
      var all := (b.held + ranges) * (b.held + more) + HeapStates.Extents(heap.blocks);
      UndisturbedFewer(was, heap.os.mem, heap.os.pd, all, ranges);
      HeapStates.UndisturbedTwice(b.mem, was, heap.os.mem, heap.os.pd, b.held, all);
      assert Steady(more, pointers, b, OfTheHeap) && Steady(more, pointers, b, OfTheRanges);
    }

    // ----- The list -----

    /** An allocation for the list. */
    method Allocate(req: nat, ghost ranges: set<Extent>, ghost pointers: set<nat>, ghost b: Before)
      returns (r: Outcome, ghost i: nat, ghost k: nat)
      requires H.Fits(req) && Stable(ranges, pointers, b)
      modifies heap.Repr(), heap.others
      ensures r.Panicked? ==> heap.os.frames.Free() == {}
      ensures r.Done? ==>
                && heap.os.pd == old(heap.os.pd) && heap.os.top == old(heap.os.top) && heap.os.pd < FRAMES
                && Undisturbed(old(heap.os.mem), heap.os.mem, heap.os.pd, b.held + ranges)
      ensures r == Done(0) ==>
                heap.Valid() && !HeapStates.HadRoom(heap.blocks, heap.os.mem, heap.os.pd, req + OVERHEAD)
      ensures r.Done? && r.address != 0 ==>
                && r.address !in pointers && Stable(ranges, pointers + {r.address}, b)
                && Lodged(heap, heap.os.pd, old(Now()), Now(), i, k, req)
    {
      assert Steady(ranges, pointers, b, OfTheHeap) && Steady(ranges, pointers, b, OfTheRanges);
      ghost var was, before := heap.os.mem, Beginning();
      StartsStable();
      assert Steady({}, {}, before, OfTheRanges);
      r, i, k := Borrow(heap, req, pointers, b.blocks, b.bytes);
      if r.Done? {
        HeapStates.UndisturbedTwice(b.mem, was, heap.os.mem, heap.os.pd, b.held, b.held + ranges);
        if r.address != 0 {
          HeapWidened(heap, before, i, k, req);
        }
      }
    }

    /** Puts a range on the list: a node, then its reference count. */
    method Enqueue(items0: seq<Item>, extent: Extent, ghost ranges: set<Extent>, ghost b: Before)
      returns (r: Loading, items: seq<Item>, ghost how: Enqueuing)
      requires Stable(ranges, PointersOf(items0), b) && WellLinked(items0)
      requires extent.pages > 0 ==> extent !in RangesOf(items0)
      modifies heap.Repr(), heap.others
      ensures r.OutOfFrames? ==> heap.os.frames.Free() == {}
      ensures r.NodeAtNull? ==> NoRoomForEntry()
      ensures r.Finished? ==>
                && r.ok && heap.os.pd == old(heap.os.pd) && heap.os.top == old(heap.os.top) && heap.os.pd < FRAMES
                && Undisturbed(old(heap.os.mem), heap.os.mem, heap.os.pd, b.held + ranges)
                && items != [] && items == items0 + [items[|items| - 1]] && items[|items| - 1].extent == extent
                && WellLinked(items) && Stable(ranges, PointersOf(items), b)
                && how.mem == old(heap.os.mem) && TwoLodged(old(heap.blocks), how)
    {
      items, how := items0, Enqueuing(heap.os.mem, Now(), 0, 0, 0, 0);
      ghost var was := heap.os.mem;
      var node;
      ghost var i, k;
      node, i, k := Allocate(NODE_SIZE, ranges, PointersOf(items0), b);
      if node.Panicked? {
        return OutOfFrames, items, how;
      }
      if node.address == 0 {
        return NodeAtNull, items, how;
      }
      how := how.(mid := Now(), i := i, k := k);
      ghost var mid := heap.os.mem;
      ghost var j, l;
      r, items, j, l := EnqueueCount(items0, extent, node.address, ranges, b);
      if r.Finished? {
        how := how.(j := j, l := l);
        HeapStates.UndisturbedTwice(was, mid, heap.os.mem, heap.os.pd, b.held + ranges, b.held + ranges);
      }
    }

    /** The second allocation of an entry, and the entry itself. */
    method EnqueueCount(items0: seq<Item>, extent: Extent, node: nat, ghost ranges: set<Extent>, ghost b: Before)
      returns (r: Loading, items: seq<Item>, ghost j: nat, ghost l: nat)
      requires node !in PointersOf(items0) && Stable(ranges, PointersOf(items0) + {node}, b) && WellLinked(items0)
      requires extent.pages > 0 ==> extent !in RangesOf(items0)
      modifies heap.Repr(), heap.others
      ensures r.OutOfFrames? ==> heap.os.frames.Free() == {}
      ensures r.NodeAtNull? ==> NoRoomForEntry()
      ensures r.Finished? ==>
                && r.ok && heap.os.pd == old(heap.os.pd) && heap.os.top == old(heap.os.top) && heap.os.pd < FRAMES
                && Undisturbed(old(heap.os.mem), heap.os.mem, heap.os.pd, b.held + ranges)
                && items != [] && items == items0 + [items[|items| - 1]] && items[|items| - 1].extent == extent
                && WellLinked(items) && Stable(ranges, PointersOf(items), b)
                && Lodged(heap, heap.os.pd, old(Now()), Now(), j, l, COUNT_SIZE)
    {
      items := items0;
      var count;
      count, j, l := Allocate(COUNT_SIZE, ranges, PointersOf(items0) + {node}, b);
      if count.Panicked? {
        return OutOfFrames, items, j, l;
      }
      if count.address == 0 {
        return NodeAtNull, items, j, l;
      }
      var item := Item(extent, node, count.address);
      ItemAdded(items0, item);
      items := items0 + [item];
      assert PointersOf(items) == PointersOf(items0) + {node} + {count.address};
      r := Finished(true);
    }

    ghost predicate TwoLodged(blocks: seq<Block>, how: Enqueuing)
      reads heap, heap.os
    {
      && heap.os.pd < FRAMES
      && Lodged(heap, heap.os.pd, Stage(blocks, how.mem), how.mid, how.i, how.k, NODE_SIZE)
      && Lodged(heap, heap.os.pd, how.mid, Now(), how.j, how.l, COUNT_SIZE)
    }

    /** The heap is exhausted: neither a gap nor a run of pages is left for the list. */
    ghost predicate NoRoomForEntry()
      reads heap, heap.os.Repr(), heap.others
    {
      && heap.Valid()
      && (!HeapStates.HadRoom(heap.blocks, heap.os.mem, heap.os.pd, NODE_SIZE + OVERHEAD)
          || !HeapStates.HadRoom(heap.blocks, heap.os.mem, heap.os.pd, COUNT_SIZE + OVERHEAD))
    }

    method Deallocate(p: nat, ghost ranges: set<Extent>, ghost pointers: set<nat>, ghost b: Before)
      requires p in pointers && Stable(ranges, pointers, b)
      modifies heap.Repr(), heap.others
      ensures heap.os.pd == old(heap.os.pd) && heap.os.top == old(heap.os.top) && heap.os.pd < FRAMES
      ensures Undisturbed(old(heap.os.mem), heap.os.mem, heap.os.pd, b.held + ranges)
      ensures Stable(ranges, pointers - {p}, b)
    {
      assert Steady(ranges, pointers, b, OfTheHeap) && Steady(ranges, pointers, b, OfTheRanges);
      ghost var was := heap.os.mem;
      Return(heap, p, pointers, b.blocks, b.bytes);
      HeapStates.UndisturbedTwice(b.mem, was, heap.os.mem, heap.os.pd, b.held, b.held + ranges);
    }

    method GiveRange(e: Extent, ghost ranges: set<Extent>, ghost pointers: set<nat>, ghost b: Before)
      requires e in ranges && Stable(ranges, pointers, b)
      modifies heap.others, heap.os.Repr()
      ensures heap.os.pd == old(heap.os.pd) && heap.os.top == old(heap.os.top) && heap.os.pd < FRAMES
      ensures Undisturbed(old(heap.os.mem), heap.os.mem, heap.os.pd, b.held + (ranges - {e}))
      ensures Stable(ranges - {e}, pointers, b)
    {
      assert Steady(ranges, pointers, b, OfTheHeap) && Steady(ranges, pointers, b, OfTheRanges);
      ghost var was, before := heap.os.mem, heap.others.around.held;
      S.GiveBack(heap, e);
      ghost var held := before - {e};
      assert held == b.held + (ranges - {e}) && before * held == held;
      UndisturbedFewer(was, heap.os.mem, heap.os.pd, held + HeapStates.Extents(heap.blocks), held);
      HeapStates.UndisturbedTwice(b.mem, was, heap.os.mem, heap.os.pd, b.held, held);
    }

    /** The last entry: its range if armed, then its node and its count. */
    method DestroyLast(items: seq<Item>, armed: bool, ghost ranges: set<Extent>, ghost b: Before)
      requires items != [] && WellLinked(items)
      requires Stable(if armed then RangesOf(items) else ranges, PointersOf(items), b)
      modifies heap.Repr(), heap.others
      ensures Stable(if armed then RangesOf(items[..|items| - 1]) else ranges, PointersOf(items[..|items| - 1]), b)
      ensures heap.os.pd == old(heap.os.pd) && heap.os.top == old(heap.os.top) && heap.os.pd < FRAMES
      ensures !armed ==> Undisturbed(old(heap.os.mem), heap.os.mem, heap.os.pd, b.held + ranges)
    {
      var last := items[|items| - 1];
      ghost var left := if armed then RangesOf(items[..|items| - 1]) else ranges;
      ghost var pointers, was := PointersOf(items), heap.os.mem;
      if armed && last.extent.pages > 0 {
        assert RangesOf(items) - {last.extent} == left;
        GiveRange(last.extent, RangesOf(items), pointers, b);
      }
      ghost var mem1 := heap.os.mem;
      Deallocate(last.node, left, pointers, b);
      ghost var mem2 := heap.os.mem;
      Deallocate(last.count, left, pointers - {last.node}, b);
      assert pointers - {last.node} - {last.count} == PointersOf(items[..|items| - 1]);
      HeapStates.UndisturbedTwice(mem1, mem2, heap.os.mem, heap.os.pd, b.held + left, b.held + left);
    }

    /** Takes the list apart from its end, giving back the ranges first if it is still armed. */
    method Destroy(items: seq<Item>, armed: bool, ghost ranges: set<Extent>, ghost b: Before)
      requires Stable(ranges, PointersOf(items), b) && WellLinked(items) && (armed ==> ranges == RangesOf(items))
      modifies heap.Repr(), heap.others
      ensures Stable(if armed then {} else ranges, {}, b)
      ensures heap.os.pd == old(heap.os.pd) && heap.os.top == old(heap.os.top) && heap.os.pd < FRAMES
      ensures !armed ==> Undisturbed(old(heap.os.mem), heap.os.mem, heap.os.pd, b.held + ranges)
    {
      assert items[..|items|] == items;
      S.SamePagesTrivially(heap.os.mem, heap.os.pd, b.held + ranges);
      for j := |items| downto 0
        invariant Stable(if armed then RangesOf(items[..j]) else ranges, PointersOf(items[..j]), b)
        invariant WellLinked(items[..j])
        invariant heap.os.pd == old(heap.os.pd) && heap.os.top == old(heap.os.top) && heap.os.pd < FRAMES
        invariant !armed ==> Undisturbed(old(heap.os.mem), heap.os.mem, heap.os.pd, b.held + ranges)
      {
        ghost var was := heap.os.mem;
        assert items[..j + 1][..j] == items[..j];
        DestroyLast(items[..j + 1], armed, ranges, b);
        if !armed {
          HeapStates.UndisturbedTwice(old(heap.os.mem), was, heap.os.mem, heap.os.pd, b.held + ranges, b.held + ranges);
        }
      }
    }

    // ----- Loading -----

    /** The first `k` segments are in memory. */
    ghost predicate AllShown(k: nat)
      requires heap.os.pd < FRAMES && k <= |segments|
      reads this, heap.os
    {
      forall i :: 0 <= i < k && Wanted(segments[i]) ==> SegmentShown(data, heap.os.mem, heap.os.pd, segments[i])
    }

    ghost predicate Fits() {
      forall s <- segments :: Wanted(s) ==> WellFormed(s)
    }

    /** What was in memory at the start is where it was. */
    ghost predicate OldKept(b: Before)
      requires heap.os.pd < FRAMES
      reads this, heap.os
    {
      KeepsOld(b.data, b.mem, data, b.mem, heap.os.pd, heap.os.top)
    }

    /** Fills the segment just mapped; those before it and all older contents survive. */
    method FillNext(k: nat, s: Segment, ghost b: Before, ghost pages: set<nat>)
      requires k < |segments| && s == segments[k] && Wanted(s) && WellFormed(s)
      requires heap.os.Valid() && HeldMapped(heap.os.mem, heap.os.pd, heap.os.top, ExtentsOf(segments, k + 1))
      requires AddsOnly(b.mem, heap.os.mem, heap.os.pd, pages) && Loadable(b.mem, heap.os.pd, segments, k + 1)
      requires AllShown(k) && OldKept(b)
      modifies `data
      ensures AllShown(k + 1) && OldKept(b)
    {
      ghost var before, mem := data, heap.os.mem;
      SegmentAllDynamic(mem, heap.os.pd, heap.os.top, segments, k);
      Fill(s);
      OldSurvives(b.data, b.mem, mem, heap.os.pd, heap.os.top, before, data, s, pages);
      OthersSurvive(b.mem, mem, heap.os.pd, heap.os.top, mem, before, data, segments, k);
    }

    lemma PagingWorks(ranges: set<Extent>, pointers: set<nat>, b: Before)
      requires Stable(ranges, pointers, b)
      ensures heap.os.Valid() && heap.Valid()
    {
      assert Steady(ranges, pointers, b, OfTheHeap);
      assert heap.Shares(heap.blocks, Concern.Accounts);
    }

    /** Segments loaded so far are still in memory while everything held stays in place. */
    lemma StillShown(k: nat, ranges: set<Extent>, pointers: set<nat>, b: Before, was: Memory)
      requires Stable(ranges, pointers, b) && k <= |segments| && ExtentsOf(segments, k) <= ranges
      requires Loadable(b.mem, heap.os.pd, segments, k)
      requires Undisturbed(was, heap.os.mem, heap.os.pd, ExtentsOf(segments, k))
      requires forall i :: 0 <= i < k && Wanted(segments[i]) ==> SegmentShown(data, was, heap.os.pd, segments[i])
      ensures AllShown(k)
    {
      NewRanges(ranges, pointers, b);
      MappedFewer(heap.os.mem, heap.os.pd, heap.os.top, ranges + Grown(b, heap.blocks), ExtentsOf(segments, k));
      ShownStays(data, b.mem, was, heap.os.mem, heap.os.pd, heap.os.top, segments, k);
    }

    /** The segment is mapped: put it on the list. */
    method Remember(k: nat, items0: seq<Item>, ghost st: Stage, ghost b: Before)
      returns (r: Loading, items: seq<Item>, ghost how: Enqueuing)
      requires k < |segments| && Wanted(segments[k])
      requires Stable(ExtentsOf(segments, k + 1), PointersOf(items0), b) && Loadable(b.mem, heap.os.pd, segments, k + 1)
      requires WellLinked(items0) && RangesOf(items0) == ExtentsOf(segments, k) && AllShown(k) && this !in heap.Repr()
      requires st.blocks == heap.blocks && SegmentMapped(heap.os.pd, segments[k], st.mem, heap.os.mem)
      modifies heap.Repr(), heap.others
      ensures r.OutOfFrames? ==> heap.os.frames.Free() == {}
      ensures r.NodeAtNull? ==> NoRoomForEntry()
      ensures r.Finished? ==>
                && r.ok && heap.os.pd == old(heap.os.pd) && heap.os.top == old(heap.os.top)
                && Stable(ExtentsOf(segments, k + 1), PointersOf(items), b)
                && WellLinked(items) && RangesOf(items) == ExtentsOf(segments, k + 1) && AllShown(k)
                && Enqueued(heap, heap.os.pd, segments[k], st, how, Now())
    {
      ghost var was, ranges := heap.os.mem, ExtentsOf(segments, k + 1);
      var e := ElfSegments.ExtentOf(segments[k]);
      NotYetHeld(b.mem, heap.os.pd, segments, k);
      r, items, how := Enqueue(items0, e, ranges, b);
      if r.Finished? {
        NextExtent(segments, k);
        assert items[..|items| - 1] == items0;
        UndisturbedFewer(was, heap.os.mem, heap.os.pd, b.held + ranges, ExtentsOf(segments, k));
        LoadableLess(b.mem, heap.os.pd, segments, k);
        StillShown(k, ranges, PointersOf(items), b, was);
      }
    }

    /** The segment is mapped and on the list: fill it. */
    method Finish(k: nat, ghost pointers: set<nat>, ghost b: Before)
      requires k < |segments| && Wanted(segments[k]) && WellFormed(segments[k]) && this !in heap.Repr()
      requires Stable(ExtentsOf(segments, k + 1), pointers, b) && Loadable(b.mem, heap.os.pd, segments, k + 1)
      requires AllShown(k) && OldKept(b)
      modifies `data
      ensures Stable(ExtentsOf(segments, k + 1), pointers, b) && AllShown(k + 1) && OldKept(b)
    {
      ghost var ranges := ExtentsOf(segments, k + 1);
      PagingWorks(ranges, pointers, b);
      NewRanges(ranges, pointers, b);
      MappedFewer(heap.os.mem, heap.os.pd, heap.os.top, ranges + Grown(b, heap.blocks), ranges);
      FillNext(k, segments[k], b, HeldPages(ranges + Grown(b, heap.blocks)));
    }

    /** Where loading stands before segment `k`. */
    ghost predicate Halfway(k: nat, items: seq<Item>, stages: seq<Stage>, b: Before)
      requires k <= |segments|
      reads this, heap.Repr(), heap.others
    {
      && Stable(ExtentsOf(segments, k), PointersOf(items), b) && Loadable(b.mem, heap.os.pd, segments, k)
      && WellLinked(items) && RangesOf(items) == ExtentsOf(segments, k)
      && AllShown(k) && OldKept(b)
      && Along(k, stages, b)
    }

    /** The stages so far, none of which was an obstacle. */
    ghost predicate Along(k: nat, stages: seq<Stage>, b: Before)
      requires k <= |segments|
      reads heap, heap.os
    {
      && heap.os.pd < FRAMES && Staged(heap, heap.os.pd, segments, stages, b)
      && |stages| == k + 1 && stages[k] == Now()
      && forall i :: 0 <= i < k ==> Unobstructed(segments, stages, b, i)
    }

    lemma AlongNext(k: nat, stages: seq<Stage>, b: Before)
      requires k < |segments| && heap.os.pd < FRAMES && Staged(heap, heap.os.pd, segments, stages, b)
      requires |stages| == k + 1
      requires forall i :: 0 <= i < k + 1 ==> Unobstructed(segments, stages, b, i)
      requires StageFollows(heap, heap.os.pd, segments[k], stages[k], Now())
      ensures Along(k + 1, stages + [Now()], b)
    {
      var next := Now();
      var more := stages + [next];
      StageAdded(heap, heap.os.pd, segments, stages, b, next);
      forall i | 0 <= i < k + 1
        ensures Unobstructed(segments, more, b, i)
      {
        assert Unobstructed(segments, stages, b, i);
      }
    }

    /** A refused segment: either the segments could not be loaded, or the heap was in the way. */
    ghost predicate Obstructed(stages: seq<Stage>, b: Before)
      requires heap.os.pd < FRAMES && 0 < |stages| <= |segments|
      reads heap.os
    {
      !Loadable(b.mem, heap.os.pd, segments, |stages|) || !Unobstructed(segments, stages, b, |stages| - 1)
    }

    /** One turn of the loading loop. */
    method LoadNext(k: nat, items0: seq<Item>, ghost stages0: seq<Stage>, ghost b: Before)
      returns (r: Loading, items: seq<Item>, ghost stages: seq<Stage>)
      requires k < |segments| && Fits() && this !in heap.Repr() && Halfway(k, items0, stages0, b)
      modifies `data, heap.Repr(), heap.others
      ensures r.OutOfFrames? ==> heap.os.frames.Free() == {}
      ensures r.NodeAtNull? ==> NoRoomForEntry()
      ensures r.Finished? ==> heap.os.pd == old(heap.os.pd) && heap.os.top == old(heap.os.top)
      ensures r == Finished(true) ==> Halfway(k + 1, items, stages, b)
      ensures r == Finished(false) ==>
                && items == items0 && stages == stages0 && Stable(ExtentsOf(segments, k), PointersOf(items), b)
                && Obstructed(stages, b) && OldKept(b)
    {
      items, stages := items0, stages0;
      if segments[k].alignment != 0x1000 {
        SkipSegment(b.mem, heap.os.pd, segments, k);
        AlongNext(k, stages, b);
        stages := stages + [Now()];
        return Finished(true), items, stages;
      }
      r, items, stages := LoadWanted(k, items, stages, b);
    }

    /** One turn for a segment that is loaded: map, remember, fill. */
    method LoadWanted(k: nat, items0: seq<Item>, ghost stages0: seq<Stage>, ghost b: Before)
      returns (r: Loading, items: seq<Item>, ghost stages: seq<Stage>)
      requires k < |segments| && Wanted(segments[k]) && WellFormed(segments[k]) && this !in heap.Repr()
      requires Halfway(k, items0, stages0, b)
      modifies `data, heap.Repr(), heap.others
      ensures r.OutOfFrames? ==> heap.os.frames.Free() == {}
      ensures r.NodeAtNull? ==> NoRoomForEntry()
      ensures r.Finished? ==> heap.os.pd == old(heap.os.pd) && heap.os.top == old(heap.os.top)
      ensures r == Finished(true) ==> Halfway(k + 1, items, stages, b)
      ensures r == Finished(false) ==>
                && items == items0 && stages == stages0 && Stable(ExtentsOf(segments, k), PointersOf(items), b)
                && Obstructed(stages, b) && OldKept(b)
    {
      items, stages := items0, stages0;
      ghost var was := heap.os.mem;
      var placed := MapNext(k, segments[k], PointersOf(items), b);
      if placed.Panicked? {
        return OutOfFrames, items, stages;
      }
      if placed.address == 0 {
        return Finished(false), items, stages;
      }
      LoadableLess(b.mem, heap.os.pd, segments, k);
      StillShown(k, ExtentsOf(segments, k + 1), PointersOf(items), b, was);
      r, items, stages := KeepWanted(k, items, stages, b);
    }

    /** The second half of a turn: the segment is mapped. */
    method KeepWanted(k: nat, items0: seq<Item>, ghost stages0: seq<Stage>, ghost b: Before)
      returns (r: Loading, items: seq<Item>, ghost stages: seq<Stage>)
      requires k < |segments| && Wanted(segments[k]) && WellFormed(segments[k]) && this !in heap.Repr()
      requires Stable(ExtentsOf(segments, k + 1), PointersOf(items0), b) && Loadable(b.mem, heap.os.pd, segments, k + 1)
      requires WellLinked(items0) && RangesOf(items0) == ExtentsOf(segments, k) && AllShown(k) && OldKept(b)
      requires Staged(heap, heap.os.pd, segments, stages0, b) && |stages0| == k + 1
      requires stages0[k].blocks == heap.blocks && SegmentMapped(heap.os.pd, segments[k], stages0[k].mem, heap.os.mem)
      requires forall i :: 0 <= i < k + 1 ==> Unobstructed(segments, stages0, b, i)
      modifies `data, heap.Repr(), heap.others
      ensures r.OutOfFrames? ==> heap.os.frames.Free() == {}
      ensures r.NodeAtNull? ==> NoRoomForEntry()
      ensures r.Finished? ==>
                && r.ok && heap.os.pd == old(heap.os.pd) && heap.os.top == old(heap.os.top)
                && Halfway(k + 1, items, stages, b)
    {
      stages := stages0;
      ghost var how;
      r, items, how := Remember(k, items0, stages[k], b);
      if r.Finished? {
        Finish(k, PointersOf(items), b);
        AlongNext(k, stages, b);
        stages := stages + [Now()];
      }
    }

    /** The loading loop, and the end of the list. */
    method LoadAll(ghost b: Before) returns (r: Loading, ghost stages: seq<Stage>)
      requires heap.Valid() && this !in heap.Repr() && Fits() && b == Beginning()
      modifies `data, heap.Repr(), heap.others
      ensures r.OutOfFrames? ==> heap.os.frames.Free() == {}
      ensures r.NodeAtNull? ==> NoRoomForEntry()
      ensures r.Finished? ==>
                && heap.os.pd == old(heap.os.pd) && heap.os.top == old(heap.os.top) && OldKept(b)
                && Staged(heap, heap.os.pd, segments, stages, b)
      ensures r == Finished(true) ==>
                && Stable(ExtentsOf(segments, |segments|), {}, b) && AllShown(|segments|)
                && Loadable(b.mem, heap.os.pd, segments, |segments|) && |stages| == |segments| + 1
                && forall i :: 0 <= i < |segments| ==> Unobstructed(segments, stages, b, i)
      ensures r == Finished(false) ==> Stable({}, {}, b) && |stages| <= |segments| && Obstructed(stages, b)
    {
      StartsStable();
      var items: seq<Item> := [];
      stages := [Now()];
      assert ExtentsOf(segments, 0) == {};
      for k := 0 to |segments|
        invariant heap.os.pd == old(heap.os.pd) && heap.os.top == old(heap.os.top)
        invariant Halfway(k, items, stages, b)
      {
        r, items, stages := LoadNext(k, items, stages, b);
        if r != Finished(true) {
          if r.Finished? {
            Destroy(items, true, ExtentsOf(segments, k), b);
          }
          return;
        }
      }
      ghost var was, n := heap.os.mem, |segments|;
      Destroy(items, false, ExtentsOf(segments, n), b);
      UndisturbedFewer(was, heap.os.mem, heap.os.pd, b.held + ExtentsOf(segments, n), ExtentsOf(segments, n));
      StillShown(n, ExtentsOf(segments, n), {}, b, was);
      r := Finished(true);
    }

    /** At the end: the heap is what it was, and so is everything that was in memory. */
    lemma Concluded(ranges: set<Extent>, b: Before)
      requires Stable(ranges, {}, b) && OldKept(b)
      ensures heap.Valid() && heap.blocks == b.blocks
      ensures forall c | c in HeapStates.Cells(b.blocks) :: HeapStates.Kept(b.bytes, heap.bytes, c)
      ensures heap.others.around.held == b.held + ranges && b.held !! ranges
      ensures heap.others.around.start == b.start && heap.others.around.base == b.base
      ensures KeepsOld(b.data, b.mem, data, heap.os.mem, heap.os.pd, heap.os.top)
      ensures ranges == {} ==>
                && SameTranslations(b.mem, heap.os.mem, heap.os.pd)
                && heap.os.frames.Used() == b.used + TableFrames(heap.os.mem, heap.os.pd)
    {
      assert Steady(ranges, {}, b, OfTheHeap) && Steady(ranges, {}, b, OfTheRanges);
      AllReturned(heap.blocks, heap.bytes, b.blocks, b.bytes);
      NewRanges(ranges, {}, b);
      OldInPlace(b.data, b.mem, data, heap.os.mem, heap.os.pd, heap.os.top, HeldPages(ranges + Grown(b, heap.blocks)));
      if ranges == {} {
        BackAsBefore(heap, b);
      }
    }

    /**
     Loads every segment or none. It succeeds exactly when the segments ask for
     aligned, unmapped pages that do not overlap, and the heap, which keeps the list of
     what to clean up, has not taken any of those pages by the time they are asked for;
     with room for the list it takes none. Then each segment's memory is its file bytes
     followed by zeros. Refused, it leaves every translation as it was, and the frames
     in use grow only by page tables. Either way the heap is what it was, and the
     contents of pages mapped before are kept.
     */
    method LoadSegments() returns (r: Loading, ghost stages: seq<Stage>)
      requires heap.Valid() && this !in heap.Repr() && Fits()
      modifies this, heap.Repr(), heap.others
      ensures r.OutOfFrames? ==> heap.os.frames.Free() == {}
      ensures r.NodeAtNull? ==> NoRoomForEntry()
      ensures old(isLoaded) ==> r == Finished(true) && old(Beginning()) == Beginning()
      ensures r.Finished? ==>
                && heap.Valid() && heap.os.pd == old(heap.os.pd) && heap.os.top == old(heap.os.top) && isLoaded == r.ok
                && heap.blocks == old(heap.blocks)
                && (forall c | c in HeapStates.Cells(heap.blocks) :: HeapStates.Kept(old(heap.bytes), heap.bytes, c))
      ensures r.Finished? && !old(isLoaded) ==>
                && Staged(heap, heap.os.pd, segments, stages, old(Beginning()))
                && (r.ok <==>
                      && AllWelcome(old(heap.os.mem), heap.os.pd, segments)
                      && forall i | 0 <= i < |segments| && i < |stages| ::
                           Unobstructed(segments, stages, old(Beginning()), i))
                && (SomeRoom(old(heap.blocks), EntryRoom(|segments|)) ==>
                      (r.ok <==> AllWelcome(old(heap.os.mem), heap.os.pd, segments)))
                && KeepsOld(old(data), old(heap.os.mem), data, heap.os.mem, heap.os.pd, heap.os.top)
                && heap.others.around.base == old(heap.others.around.base)
                && heap.others.around.start == old(heap.others.around.start)
      ensures r == Finished(true) && !old(isLoaded) ==>
                && AllShown(|segments|) && |stages| == |segments| + 1 && HoldsItsPages(segments)
                && old(heap.others.around.held) !! ExtentsOf(segments, |segments|)
                && heap.others.around.held == old(heap.others.around.held) + ExtentsOf(segments, |segments|)
                && Undisturbed(old(heap.os.mem), heap.os.mem, heap.os.pd, old(heap.others.around.held))
      ensures r == Finished(false) ==>
                && heap.others.around.held == old(heap.others.around.held)
                && SameTranslations(old(heap.os.mem), heap.os.mem, heap.os.pd)
                && heap.os.frames.Used() == old(heap.os.frames.Used()) + TableFrames(heap.os.mem, heap.os.pd)
    {
      stages := [];
      if isLoaded {
        return Finished(true), stages;
      }
      ghost var b := Beginning();
      r, stages := LoadAll(b);
      if r.Finished? {
        ghost var ranges := if r.ok then ExtentsOf(segments, |segments|) else {};
        Concluded(ranges, b);
        Verdict(r.ok, stages, b);
        assert Steady(ranges, {}, b, OfTheRanges);
        isLoaded := r.ok;
      }
    }

    /** The exact condition, from how loading ended. */
    lemma Verdict(ok: bool, stages: seq<Stage>, b: Before)
      requires heap.os.pd < FRAMES && Staged(heap, heap.os.pd, segments, stages, b)
      requires ok ==> Loadable(b.mem, heap.os.pd, segments, |segments|) && |stages| == |segments| + 1
                      && forall i :: 0 <= i < |segments| ==> Unobstructed(segments, stages, b, i)
      requires !ok ==> |stages| <= |segments| && Obstructed(stages, b)
      requires Fits()
      ensures ok <==>
                && AllWelcome(b.mem, heap.os.pd, segments)
                && forall i | 0 <= i < |segments| && i < |stages| :: Unobstructed(segments, stages, b, i)
      ensures SomeRoom(b.blocks, EntryRoom(|segments|)) ==> (ok <==> AllWelcome(b.mem, heap.os.pd, segments))
      ensures ok ==> HoldsItsPages(segments)
    {
      LoadableIsWelcome(b.mem, heap.os.pd, segments);
      if ok {
        PagesHeld(b.mem, heap.os.pd, segments);
      }
      LoadablePrefix(b.mem, heap.os.pd, segments, if |stages| <= |segments| then |stages| else 0);
      if SomeRoom(b.blocks, EntryRoom(|segments|)) {
        forall i | 0 <= i < |segments| && i < |stages|
          ensures Unobstructed(segments, stages, b, i)
        {
          StagesKeepPages(heap, heap.os.pd, segments, stages, b, i);
          assert HeldPages({}) == {};
        }
      }
    }

    // ----- Unloading -----

    /** Each segment's pages are held, and no two segments share them. */
    ghost predicate Holding(held: set<Extent>) {
      && (forall i :: 0 <= i < |segments| ==> SegmentHeld(held, segments, i))
      && forall i, j :: 0 <= i < j < |segments| ==> Clear(segments, i, j)
    }

    /** The others' pages are where they were, and they hold `held` now. */
    twostate predicate Kept(held: set<Extent>)
      reads heap, heap.os.Repr(), heap.others
    {
      && heap.Valid() && heap.os.pd == old(heap.os.pd) && heap.os.top == old(heap.os.top)
      && heap.others.around == old(heap.others.around).(held := held, seen := heap.others.around.seen)
      && Undisturbed(old(heap.os.mem), heap.os.mem, heap.os.pd, held)
    }

    /** Frees segment `k`; an empty range is an error. */
    method FreeNext(k: nat, ghost held0: set<Extent>) returns (status: int)
      requires k < |segments| && k <= FirstEmpty(segments, 0) && heap.Valid() && Holding(held0)
      requires heap.others.around.held == held0 - ExtentsOf(segments, k)
      modifies heap.others, heap.os.Repr()
      ensures status == if k == FirstEmpty(segments, 0) then -1 else 0
      ensures status == 0 ==> Kept(held0 - ExtentsOf(segments, k + 1))
    {
      var s := segments[k];
      FirstEmptyIs(segments, 0, k);
      assert SegmentHeld(held0, segments, k);
      StillPlaced(segments, held0, k);
      if PageCount(s) == 0 {
        assert heap.Shares(heap.blocks, Concern.Accounts);
        status := heap.os.Pfree(s.vaddress, 0);
      } else {
        ghost var was, before := heap.os.mem, heap.others.around.held;
        S.GiveBack(heap, ElfSegments.ExtentOf(s));
        ghost var held := held0 - ExtentsOf(segments, k + 1);
        assert before * held == held;
        UndisturbedFewer(was, heap.os.mem, heap.os.pd, held + HeapStates.Extents(heap.blocks), held);
        status := 0;
      }
    }

    /**
     Gives back every segment. It panics exactly when some segment has no memory,
     because such a segment loads but its empty range cannot be freed.
     */
    method UnloadSegments() returns (panicked: bool)
      requires heap.Valid() && this !in heap.Repr() && (isLoaded ==> Holding(heap.others.around.held))
      modifies this`isLoaded, heap.others, heap.os.Repr()
      ensures !old(isLoaded) ==> !panicked && Beginning() == old(Beginning())
      ensures old(isLoaded) ==> (panicked <==> exists i :: 0 <= i < |segments| && Empty(segments, i))
      ensures !panicked ==> heap.Valid() && !isLoaded
      ensures !panicked && old(isLoaded) ==> Kept(old(heap.others.around.held) - ExtentsOf(segments, |segments|))
    {
      if !isLoaded {
        return false;
      }
      panicked := FreeAll();
      EmptySegment(segments);
      if !panicked {
        isLoaded := false;
      }
    }

    method FreeAll() returns (panicked: bool)
      requires heap.Valid() && Holding(heap.others.around.held)
      modifies heap.others, heap.os.Repr()
      ensures panicked <==> FirstEmpty(segments, 0) < |segments|
      ensures !panicked ==> Kept(old(heap.others.around.held) - ExtentsOf(segments, |segments|))
    {
      ghost var held0 := heap.others.around.held;
      assert heap.os.pd < FRAMES;
      S.SamePagesTrivially(heap.os.mem, heap.os.pd, held0);
      assert held0 - ExtentsOf(segments, 0) == held0;
      for k := 0 to |segments|
        invariant k <= FirstEmpty(segments, 0) && Kept(held0 - ExtentsOf(segments, k))
      {
        ghost var was := heap.os.mem;
        var status := FreeNext(k, held0);
        if status != 0 {
          return true;
        }
        ghost var left := held0 - ExtentsOf(segments, k + 1);
        NextExtent(segments, k);
        UndisturbedFewer(old(heap.os.mem), was, heap.os.pd, held0 - ExtentsOf(segments, k), left);
        HeapStates.UndisturbedTwice(old(heap.os.mem), was, heap.os.mem, heap.os.pd, left, left);
      }
      panicked := false;
    }
  }

  lemma NotYetHeld(mem: Memory, pd: nat, segments: seq<Segment>, k: nat)
    requires pd < FRAMES && k < |segments| && Wanted(segments[k]) && Loadable(mem, pd, segments, k + 1)
    ensures PageCount(segments[k]) > 0 ==> ElfSegments.ExtentOf(segments[k]) !in ExtentsOf(segments, k)
  {
    if PageCount(segments[k]) > 0 {
      forall i | 0 <= i < k && Wanted(segments[i])
        ensures ElfSegments.ExtentOf(segments[i]) != ElfSegments.ExtentOf(segments[k])
      {
        DifferentExtents(mem, pd, segments, i, k);
      }
    }
  }

  lemma LoadableLess(mem: Memory, pd: nat, segments: seq<Segment>, k: nat)
    requires pd < FRAMES && k < |segments| && Loadable(mem, pd, segments, k + 1)
    ensures Loadable(mem, pd, segments, k)
  {
  }

  lemma UndisturbedFewer(mem: Memory, mem': Memory, pd: nat, held: set<Extent>, fewer: set<Extent>)
    requires pd < FRAMES && fewer <= held && Undisturbed(mem, mem', pd, held)
    ensures Undisturbed(mem, mem', pd, fewer)
  {
    HeapStates.PagesOfMore(fewer, held);
  }

  lemma MappedFewer(mem: Memory, pd: nat, top: nat, held: set<Extent>, fewer: set<Extent>)
    requires pd < FRAMES && HeldMapped(mem, pd, top, held) && fewer <= held
    ensures HeldMapped(mem, pd, top, fewer)
  {
    HeapStates.PagesOfMore(fewer, held);
    forall a, b
      ensures NoOverlap(fewer, a, b)
    {
      assert NoOverlap(held, a, b);
    }
  }
}
