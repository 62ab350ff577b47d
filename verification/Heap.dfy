/**
 The heap allocator: first-fit allocation inside page blocks with a best-bet
 hint, over the page allocator. Pointers are addresses, headers live in the maps
 `majors` and `minors`, and all other memory of the blocks in `bytes`.
 */
module Heaps {
  import opened PageFrames
  import opened PageTables
  import opened Mmus
  import opened PagingRuns
  import opened HeapModel
  import opened HeapLinks
  import opened HeapStates
  import opened HeapSearches

  class Heap {
    const os: Mmu
    /** Everyone else who holds pages; no business of the code's. */
    const others: Others

    var majors: Majors
    var minors: Minors
    var bytes: Bytes

    var memRoot: nat
    var bestBet: nat
    /** Running total of memory obtained from the system. */
    var reserved: int
    /** Running total of memory handed out. */
    var inuse: int
    var warningCount: nat
    var errorCount: nat
    var possibleOverruns: nat

    /** The abstract heap. */
    ghost var blocks: seq<Block>

    ghost function Repr(): set<object> {
      {this} + os.Repr()
    }

    ghost function Fields(): State
      reads this
    {
      State(majors, minors, bytes, memRoot, bestBet, reserved, inuse)
    }

    /** The fields without the hint. */
    ghost function Core(): State
      reads this
    {
      Fields().(bestBet := 0)
    }

    /**
     How blocks `bs` share the address space, one concern at a time: their pages and
     everyone else's account for the frames in use, and nobody's pages have moved.
     */
    ghost predicate Shares(bs: seq<Block>, concern: Concern)
      reads os.Repr(), others
    {
      && os.pd < FRAMES
      && match concern
         case Accounts => Reached(os, others.around.start, others.around.base, Holdings(others.around, bs))
         case Places => Housed(os.mem, os.pd, others.around, bs)
    }

    /** The pages of blocks `bs` are held from the page allocator, beside everyone else's. */
    ghost predicate Settled(bs: seq<Block>)
      reads os.Repr(), others
    {
      others !in os.Repr() && forall concern: Concern :: Shares(bs, concern)
    }

    /** Changing the allocations of a block moves no page. */
    lemma SettledUpdate(bs: seq<Block>, i: nat, b: Block)
      requires Settled(bs) && i < |bs| && b == bs[i].(cells := b.cells)
      ensures Settled(bs[i := b])
    {
      var bs' := bs[i := b];
      assert Shares(bs, Accounts) && Shares(bs, Places);
      HousedUpdate(os.mem, os.pd, others.around, bs, i, b);
      assert Shares(bs', Accounts) && Shares(bs', Places);
    }

    /** The invariant, except that a block may be empty. */
    ghost predicate Shape()
      reads Repr(), others
    {
      this !in os.Repr() && os.pd < FRAMES && Inv(Fields(), blocks) && Settled(blocks)
    }

    /** The invariant between calls. */
    ghost predicate Valid()
      reads Repr(), others
    {
      Shape() && NoEmptyBlock(blocks)
    }

    /** The counters of warnings, errors and possible overruns. */
    ghost function Counts(): Counters
      reads this
    {
      Counters(warningCount, errorCount, possibleOverruns)
    }

    /** The counters since: one warning more or not, no error. */
    twostate predicate Counted(warned: bool)
      reads this
    {
      Counts() == old(Counts()).(warnings := old(Counts()).warnings + if warned then 1 else 0)
    }

    constructor (mmu: Mmu, holders: Others)
      requires var a := holders.around;
               Reached(mmu, a.start, a.base, a.held) && Undisturbed(a.seen, mmu.mem, mmu.pd, a.held)
      ensures Valid() && os == mmu && others == holders && blocks == []
      ensures inuse == 0 && reserved == 0
    {
      os, others := mmu, holders;
      majors, minors, bytes := map[], map[], map[];
      memRoot, bestBet, reserved, inuse := 0, 0, 0, 0;
      warningCount, errorCount, possibleOverruns := 0, 0, 0;
      blocks := [];
      new;
      SettledAlone();
    }

    lemma SettledAlone()
      requires var a := others.around;
               Reached(os, a.start, a.base, a.held) && Undisturbed(a.seen, os.mem, os.pd, a.held)
      ensures Settled([])
    {
      assert Holdings(others.around, []) == others.around.held;
      assert Shares([], Accounts) && Shares([], Places);
    }

    // ----- Getting a block from the system -----

    /** The system hook: `n` pages apart from all blocks and from everyone else's pages, or null. */
    method SystemAlloc(n: nat) returns (r: Outcome)
      requires HeapOk(blocks) && Settled(blocks) && n > 0
      modifies os.Repr()
      ensures r.Panicked? ==> os.frames.Free() == {}
      ensures r.Done? ==> os.pd == old(os.pd) && os.top == old(os.top) && os.pd < FRAMES
      ensures r.Done? ==> (r.address != 0 <==> HasRun(old(os.mem), os.pd, n))
      ensures r.Done? ==> Sought(old(os.mem), os.mem, os.pd, n, r.address / 4096)
      ensures r == Done(0) ==> Settled(blocks) && !HasRun(os.mem, os.pd, n)
      ensures r.Done? && r.address != 0 ==>
                && r.address / 4096 + n <= WINDOW_PAGE && LowestRun(old(os.mem), os.pd, n, r.address / 4096)
                && var b := NewBlock(os.mem, os.pd, r.address, n);
                   && BlockOk(b) && Settled(blocks + [b])
                   && (forall i | 0 <= i < |blocks| :: BlockEnd(blocks[i]) <= b.addr || BlockEnd(b) <= blocks[i].addr)
    {
      assert Shares(blocks, Accounts) && Shares(blocks, Places);
      ghost var was := os.mem;
      ghost var around := others.around;
      r := AskForPages(n, Holdings(around, blocks), around.start, around.base);
      if r.Done? && r.address == 0 {
        SettledStays(was, blocks);
      } else if r.Done? {
        SettledGrows(was, blocks, r.address, n);
      }
    }

    /** `n` pages join the ranges held. */
    method AskForPages(n: nat, ghost held: set<Extent>, ghost start: Memory, ghost base: set<nat>) returns (r: Outcome)
      requires n > 0 && Reached(os, start, base, held)
      modifies os.Repr()
      ensures r.Panicked? ==> os.frames.Free() == {}
      ensures r.Done? ==> os.pd == old(os.pd) && os.top == old(os.top) && os.pd < FRAMES
      ensures r.Done? ==>
                (r.address != 0 <==> HasRun(old(os.mem), os.pd, n)) && Undisturbed(old(os.mem), os.mem, os.pd, held)
      ensures r.Done? ==> Sought(old(os.mem), os.mem, os.pd, n, r.address / 0x1000)
      ensures r == Done(0) ==> Reached(os, start, base, held) && !HasRun(os.mem, os.pd, n)
      ensures r.Done? && r.address != 0 ==>
                var e := Extent(r.address / 0x1000, n);
                && r.address == e.page * 0x1000 && e.page + n <= WINDOW_PAGE && e !in held
                && LowestRun(old(os.mem), os.pd, n, e.page) && Reached(os, start, base, held + {e})
    {
      r := AllocateAnywhere(os, n, held, start, base);
      if r == Done(0) {
        SameRoom(old(os.mem), os.mem, os.pd, n);
      }
    }

    /** Page tables have changed, but for no range that is held. */
    lemma SettledStays(was: Memory, bs: seq<Block>)
      requires os.pd < FRAMES && Shares(bs, Accounts)
      requires Housed(was, os.pd, others.around, bs) && Undisturbed(was, os.mem, os.pd, Holdings(others.around, bs))
      ensures Settled(bs)
    {
      HousedStays(was, os.mem, os.pd, others.around, bs);
      assert Shares(bs, Accounts) && Shares(bs, Places);
    }

    /** `n` pages at `a` have joined what is held. */
    lemma SettledGrows(was: Memory, bs: seq<Block>, a: nat, n: nat)
      requires os.pd < FRAMES && HeapOk(bs) && n > 0 && a > 0 && a == a / 0x1000 * 0x1000
      requires a / 0x1000 + n <= WINDOW_PAGE
      requires Housed(was, os.pd, others.around, bs) && Undisturbed(was, os.mem, os.pd, Holdings(others.around, bs))
      requires Extent(a / 0x1000, n) !in Holdings(others.around, bs)
      requires Reached(os, others.around.start, others.around.base,
                       Holdings(others.around, bs) + {Extent(a / 0x1000, n)})
      ensures var b := NewBlock(os.mem, os.pd, a, n);
              && BlockOk(b) && Settled(bs + [b])
              && (forall i | 0 <= i < |bs| :: BlockEnd(bs[i]) <= b.addr || BlockEnd(b) <= bs[i].addr)
    {
      var around, b := others.around, NewBlock(os.mem, os.pd, a, n);
      PageOfAddress(a);
      AllSides(os, around.start, around.base, Holdings(around, bs) + {Extent(a / 4096, n)});
      ExtentMapped(os.mem, os.pd, os.top, Holdings(around, bs) + {Extent(a / 4096, n)}, Extent(a / 4096, n));
      forall q: nat | a / 4096 <= q < a / 4096 + n
        ensures Writable(os.mem, os.pd, q)
      {
        assert !Unmapped(os.mem, os.pd, q);
        DynamicWritable(os.mem, os.pd, os.top, os.FrameSets(), os.owner, q);
      }
      HousedGrows(was, os.mem, os.pd, around, bs, a, n);
      NewPagesApart(around, bs, a, n);
      NewBlockOk(b);
      var more := bs + [b];
      assert Shares(more, Accounts) && Shares(more, Places);
    }

    lemma PageOfAddress(a: nat)
      requires a == a / 0x1000 * 0x1000
      ensures a % 4096 == 0 && a / 4096 == a / 0x1000
    {
    }

    lemma NewBlockOk(b: Block)
      requires b.cells == [] && b.addr > 0 && b.addr % 4096 == 0 && b.pages >= 1
      requires b.addr / 4096 + b.pages <= WINDOW_PAGE
      ensures BlockOk(b)
    {
      forall k: nat
        ensures GapOk(b, k) && CellOk(b, k)
      {
      }
    }

    /** Pages for a block that holds `size` bytes and both headers, with the block header filled in. */
    method AllocateNewPage(size: nat) returns (r: Outcome, ghost contents: Bytes)
      requires Shape() && size + 48 < WORD
      modifies os.Repr(), `majors, `bytes, `reserved, `warningCount
      ensures r.Panicked? ==> os.frames.Free() == {}
      ensures r.Done? ==> os.pd == old(os.pd) && os.top == old(os.top) && os.pd < FRAMES
      ensures r.Done? ==> (r.address != 0 <==> SystemHas(old(os.mem), os.pd, size))
      ensures r.Done? ==> Sought(old(os.mem), os.mem, os.pd, PagesFor(size), r.address / 4096)
      ensures r == Done(0) ==> Fields() == old(Fields()) && Settled(blocks)
      ensures r.Done? ==> Counted(r.address == 0)
      ensures r == Done(0) ==> !SystemHas(os.mem, os.pd, size)
      ensures r.Done? && r.address != 0 ==>
                && r.address / 4096 + PagesFor(size) <= WINDOW_PAGE
                && LowestRun(old(os.mem), os.pd, PagesFor(size), r.address / 4096)
                && var b := NewBlock(os.mem, os.pd, r.address, PagesFor(size));
                && Growable(blocks, b, contents) && Settled(blocks + [b])
                && majors == old(majors)[b.addr := Major(0, 0, b.pages, BlockSize(b), 24, 0)]
                && bytes == old(bytes) + contents
                && reserved == old(reserved) + BlockSize(b)
    {
      contents := map[];
      var st := PagesFor(size);
      r := SystemAlloc(st);
      if r.Panicked? {
        return;
      }
      if r.address == 0 {
        warningCount := warningCount + 1;
        return;
      }
      majors := majors[r.address := Major(0, 0, st, st * 4096, 24, 0)];
      var junk: nat -> nat := *;
      var fill := map x: nat | r.address <= x < r.address + st * 4096 :: junk(x);
      contents := fill;
      bytes := bytes + fill;
      reserved := reserved + st * 4096;
    }

    /**
     Asks for a new block and hooks it in behind block `maj`, the last one, or
     makes it the root of an empty heap.
     */
    method AppendBlock(maj: nat, size: nat) returns (r: Outcome)
      requires Shape() && size + 48 < WORD && maj == AddrOf(blocks, |blocks| - 1)
      modifies Repr()
      ensures r.Panicked? ==> os.frames.Free() == {}
      ensures bestBet == old(bestBet) && inuse == old(inuse)
      ensures r.Done? ==> Counted(r.address == 0)
      ensures r.Done? ==> os.pd < FRAMES && Sought(old(os.mem), os.mem, os.pd, PagesFor(size), r.address / 4096)
      ensures r.Done? ==> Shape() && os.pd == old(os.pd) && os.top == old(os.top)
      ensures r == Done(0) ==>
                && Fields() == old(Fields()) && blocks == old(blocks)
                && !SystemHas(old(os.mem), os.pd, size) && !SystemHas(os.mem, os.pd, size)
      ensures r.Done? && r.address != 0 ==>
                && r.address / 4096 + PagesFor(size) <= WINDOW_PAGE
                && LowestRun(old(os.mem), os.pd, PagesFor(size), r.address / 4096)
                && blocks == old(blocks) + [NewBlock(os.mem, os.pd, r.address, PagesFor(size))]
                && SystemHas(old(os.mem), os.pd, size)
                && AllKept(old(bytes), bytes, old(blocks))
    {
      ghost var before, was := Fields(), blocks;
      ghost var contents;
      r, contents := AllocateNewPage(size);
      if r.Panicked? || r.address == 0 {
        return;
      }
      HookSettled(maj, r.address, before, NewBlock(os.mem, os.pd, r.address, PagesFor(size)), contents);
    }

    /** The new block is in the list, and its pages are in place. */
    method HookSettled(maj: nat, a: nat, ghost before: State, ghost b: Block, ghost contents: Bytes)
      requires Inv(before, blocks) && Growable(blocks, b, contents) && a == b.addr
      requires maj == AddrOf(blocks, |blocks| - 1)
      requires Fields() == before.(majors := before.majors[a := Major(0, 0, b.pages, BlockSize(b), 24, 0)],
                                   bytes := before.bytes + contents,
                                   reserved := before.reserved + BlockSize(b))
      requires this !in os.Repr() && os.pd < FRAMES && Settled(blocks + [b])
      modifies `majors, `memRoot, `blocks
      ensures Shape() && blocks == old(blocks) + [b] && AllKept(before.bytes, bytes, old(blocks))
    {
      HookIn(maj, a, before, b, contents);
    }

    /** Links the new block behind the last one, or makes it the root. */
    method HookIn(maj: nat, a: nat, ghost before: State, ghost b: Block, ghost contents: Bytes)
      requires Inv(before, blocks) && Growable(blocks, b, contents) && a == b.addr
      requires maj == AddrOf(blocks, |blocks| - 1)
      requires Fields() == before.(majors := before.majors[a := Major(0, 0, b.pages, BlockSize(b), 24, 0)],
                                   bytes := before.bytes + contents,
                                   reserved := before.reserved + BlockSize(b))
      modifies `majors, `memRoot, `blocks
      ensures blocks == old(blocks) + [b]
      ensures Fields() == Grow(before, old(blocks), b, contents) && Inv(Fields(), blocks)
      ensures AllKept(before.bytes, bytes, old(blocks))
    {
      GrowKeepsInv(before, blocks, b, contents);
      GrowKeepsContents(before, blocks, b, contents);
      LastBlock(before, blocks);
      if maj == 0 {
        memRoot := a;
      } else {
        assert BlockEnd(blocks[|blocks| - 1]) <= a || BlockEnd(b) <= maj;
        majors := majors[maj := majors[maj].(next := a)];
        majors := majors[a := majors[a].(prev := maj)];
      }
      blocks := blocks + [b];
    }

    lemma LastBlock(s: State, blocks: seq<Block>)
      requires Inv(s, blocks)
      ensures AddrOf(blocks, |blocks| - 1) == 0 <==> blocks == []
      ensures blocks != [] ==> blocks[|blocks| - 1].addr in s.majors && BlockOk(blocks[|blocks| - 1])
    {
      assert Represents(s, blocks, Headers);
      if blocks != [] {
        assert BlockAt(blocks, |blocks| - 1) && MajorLinked(s.majors, blocks, |blocks| - 1);
      }
    }

    // ----- Placing an allocation in a block -----

    /** The place taken by an allocation of `size` bytes in gap `k` of block `i`. */
    ghost function NewCell(blocks: seq<Block>, i: nat, k: nat, size: nat, req: nat): Cell
      requires i < |blocks| && k <= |blocks[i].cells|
    {
      Cell(GapStart(blocks[i], k), size, req)
    }

    /** What taking gap `k` of block `i` makes of the state. */
    twostate predicate Took(i: nat, k: nat, c: Cell)
      reads this
    {
      && old(Inv(Fields(), blocks)) && Fits(old(blocks), i, k, c)
      && Fields() == TakeGap(old(Fields()), old(blocks), i, k, c)
      && blocks == old(blocks)[i := InsertCell(old(blocks)[i], k, c)]
      && Inv(Fields(), blocks)
    }

    /** Cases 2 to 4 of the search: the first gap of the block that is large enough, or 0. */
    method PlaceIn(maj: nat, size: nat, req: nat, ghost i: nat) returns (p: nat, ghost k: nat)
      requires Inv(Fields(), blocks) && i < |blocks| && maj == blocks[i].addr && size == req + OVERHEAD
      requires BlockSize(blocks[i]) - Usage(blocks[i]) >= size + 24
      modifies `majors, `minors, `bytes, `inuse, `blocks
      ensures p == 0 ==> Fields() == old(Fields()) && blocks == old(blocks) && !HasRoom(blocks[i], size + 24)
      ensures p != 0 ==>
                && FirstFit(old(blocks)[i], size + 24, k)
                && p == Payload(NewCell(old(blocks), i, k, size, req))
                && Took(i, k, NewCell(old(blocks), i, k, size, req))
    {
      BlockFacts(i);
      var first := majors[maj].first;
      if first == 0 {
        // Case 2: the block is empty.
        p := PlaceFirst(maj, size, req, i);
        return p, 0;
      }
      // Case 3: between the block header and the first allocation.
      var diff: nat := first - maj - 24;
      if diff >= size + 24 {
        p := PlaceFront(maj, first, size, req, i);
        return p, 0;
      }
      // Case 4: behind some allocation.
      p, k := PlaceBehind(maj, first, size, req, i);
    }

    /** What the header of block `i` says about the block. */
    lemma BlockFacts(i: nat)
      requires Inv(Fields(), blocks) && i < |blocks|
      ensures BlockOk(blocks[i]) && CellsLinked(minors, blocks[i])
      ensures blocks[i].addr in majors && majors[blocks[i].addr] == MajorAt(blocks, i)
      ensures blocks[i].cells != [] ==> 0 < blocks[i].addr + 24 <= blocks[i].cells[0].addr
    {
      assert Represents(Fields(), blocks, Headers);
      assert BlockAt(blocks, i) && MajorLinked(majors, blocks, i) && MinorsLinked(minors, blocks, i);
      if blocks[i].cells != [] {
        CellInside(blocks[i], 0);
      }
    }

    method PlaceFirst(maj: nat, size: nat, req: nat, ghost i: nat) returns (p: nat)
      requires Inv(Fields(), blocks) && i < |blocks| && maj == blocks[i].addr && size == req + OVERHEAD
      requires blocks[i].cells == [] && BlockSize(blocks[i]) - Usage(blocks[i]) >= size + 24
      modifies `majors, `minors, `bytes, `inuse, `blocks
      ensures FirstFit(old(blocks)[i], size + 24, 0)
      ensures p == Payload(NewCell(old(blocks), i, 0, size, req)) && Took(i, 0, NewCell(old(blocks), i, 0, size, req))
    {
      BlockFacts(i);
      ghost var before := Fields();
      var a := maj + 24;
      minors := Claimed(minors, Cell(a, size, req));
      minors := minors[a := Minor(0, 0, maj, MAGIC, size, req)];
      p := Finish(maj, a, a, size, req, before, i, 0);
    }

    method PlaceFront(maj: nat, first: nat, size: nat, req: nat, ghost i: nat) returns (p: nat)
      requires Inv(Fields(), blocks) && i < |blocks| && maj == blocks[i].addr && size == req + OVERHEAD
      requires blocks[i].cells != [] && first == blocks[i].cells[0].addr && first - maj - 24 >= size + 24
      modifies `majors, `minors, `bytes, `inuse, `blocks
      ensures FirstFit(old(blocks)[i], size + 24, 0)
      ensures p == Payload(NewCell(old(blocks), i, 0, size, req)) && Took(i, 0, NewCell(old(blocks), i, 0, size, req))
    {
      BlockFacts(i);
      ghost var before := Fields();
      assert CellLinked(minors, blocks[i], 0);
      var a := maj + 24;
      minors := Claimed(minors, Cell(a, size, req));
      minors := minors[first := minors[first].(prev := a)];
      minors := minors[a := Minor(0, first, maj, MAGIC, size, req)];
      p := Finish(maj, a, a, size, req, before, i, 0);
    }

    method PlaceBehind(maj: nat, first: nat, size: nat, req: nat, ghost i: nat) returns (p: nat, ghost k: nat)
      requires Inv(Fields(), blocks) && i < |blocks| && maj == blocks[i].addr && size == req + OVERHEAD
      requires blocks[i].cells != [] && first == blocks[i].cells[0].addr && Gap(blocks[i], 0) < size + 24
      modifies `majors, `minors, `bytes, `inuse, `blocks
      ensures p == 0 ==> Fields() == old(Fields()) && blocks == old(blocks) && !HasRoom(blocks[i], size + 24)
      ensures p != 0 ==>
                && FirstFit(old(blocks)[i], size + 24, k)
                && p == Payload(NewCell(old(blocks), i, k, size, req))
                && Took(i, k, NewCell(old(blocks), i, k, size, req))
    {
      BlockFacts(i);
      ghost var b := blocks[i];
      var min := first;
      k := 0;
      while min != 0
        invariant Fields() == old(Fields()) && blocks == old(blocks)
        invariant k <= |b.cells| && min == CellAddr(b, k) && (k < |b.cells| ==> min != 0)
        invariant forall g: nat | g <= k && g <= |b.cells| :: Gap(b, g) < size + 24
        decreases |b.cells| - k
      {
        assert CellLinked(minors, b, k) && GapOk(b, k + 1);
        if k + 1 < |b.cells| {
          CellInside(b, k + 1);
        }
        var header := minors[min];
        var diff: nat;
        if header.next == 0 {
          // Case 4.1: the rest of the block.
          diff := maj + majors[maj].size - min - 24 - header.size;
        } else {
          // Case 4.2: up to the next allocation.
          diff := header.next - min - 24 - header.size;
        }
        assert diff == Gap(b, k + 1);
        if diff >= size + 24 {
          k := k + 1;
          p := PlaceAfter(maj, first, min, header.next, size, req, i, k);
          return;
        }
        min := header.next;
        k := k + 1;
      }
      p := 0;
    }

    /** Links a new header behind allocation `min`, in front of `next` if there is one. */
    method PlaceAfter(maj: nat, first: nat, min: nat, next: nat, size: nat, req: nat, ghost i: nat, ghost k: nat)
      returns (p: nat)
      requires Inv(Fields(), blocks) && i < |blocks| && maj == blocks[i].addr && size == req + OVERHEAD
      requires 0 < k <= |blocks[i].cells| && Gap(blocks[i], k) >= size + 24
      requires first == CellAddr(blocks[i], 0) && min == CellAddr(blocks[i], k - 1) && next == CellAddr(blocks[i], k)
      modifies `majors, `minors, `bytes, `inuse, `blocks
      ensures p == Payload(NewCell(old(blocks), i, k, size, req)) && Took(i, k, NewCell(old(blocks), i, k, size, req))
    {
      BlockFacts(i);
      ghost var before, b := Fields(), blocks[i];
      assert CellLinked(minors, b, k - 1) && CellLinked(minors, b, k);
      GapInside(b, k, k - 1);
      var a := min + 24 + minors[min].size;
      minors := Claimed(minors, Cell(a, size, req));
      minors := minors[min := minors[min].(next := a)];
      if next != 0 {
        GapInside(b, k, k);
        minors := minors[next := minors[next].(prev := a)];
      } else {
        NoSuchCell(b, k);
      }
      minors := minors[a := Minor(min, next, maj, MAGIC, size, req)];
      assert minors == Inserted(before.minors, b, k, NewCell(blocks, i, k, size, req));
      p := Finish(maj, a, first, size, req, before, i, k);
    }

    lemma NoSuchCell(b: Block, k: nat)
      requires BlockOk(b) && CellAddr(b, k) == 0
      ensures k >= |b.cells|
    {
      if k < |b.cells| {
        CellInside(b, k);
      }
    }

    /** The common end of all cases: counters, and the aligned address with its alignment byte. */
    method Finish(maj: nat, a: nat, first: nat, size: nat, req: nat, ghost before: State, ghost i: nat, ghost k: nat)
      returns (p: nat)
      requires Inv(before, blocks) && i < |blocks| && k <= |blocks[i].cells| && maj == blocks[i].addr
      requires Fits(blocks, i, k, Cell(a, size, req))
      requires first == CellAddr(InsertCell(blocks[i], k, Cell(a, size, req)), 0)
      requires CellsLinked(before.minors, blocks[i])
      requires Fields() == before.(minors := Inserted(before.minors, blocks[i], k, Cell(a, size, req)))
      modifies `majors, `bytes, `inuse, `blocks
      ensures p == Payload(Cell(a, size, req))
      ensures Fields() == TakeGap(before, old(blocks), i, k, Cell(a, size, req))
      ensures blocks == old(blocks)[i := InsertCell(old(blocks)[i], k, Cell(a, size, req))]
      ensures Inv(Fields(), blocks)
    {
      ghost var c := Cell(a, size, req);
      TakenFields(before, blocks, i, k, c);
      TakeGapKeepsInv(before, blocks, i, k, c);
      majors := majors[maj := majors[maj].(first := first, usage := majors[maj].usage + size + 24)];
      inuse := inuse + size;
      p := a + 24;
      p := AlignPointer(p);
      blocks := blocks[i := InsertCell(blocks[i], k, c)];
    }

    /** `ALIGN`: moves the pointer up and leaves the distance 16 bytes in front of it. */
    method AlignPointer(ptr: nat) returns (p: nat)
      modifies `bytes
      ensures p == Align(ptr) && bytes == old(bytes)[p - 16 := p - ptr]
    {
      p := ptr + 16;
      var diff := p % 16;
      if diff != 0 {
        diff := 16 - diff;
        p := p + diff;
      }
      bytes := bytes[p - 16 := diff + 16];
    }

    // ----- malloc -----

    /** Allocation `k` of block `i` is new: it took the first fitting gap, or it is alone in a new block. */
    static ghost predicate Placed(before: seq<Block>, after: seq<Block>, i: nat, k: nat, req: nat) {
      && i < |after| && k < |after[i].cells|
      && after[i].cells[k].size == req + OVERHEAD && after[i].cells[k].req == req
      && if i < |before| then
           && FirstFit(before[i], req + OVERHEAD + 24, k) && after[i].cells[k].addr == GapStart(before[i], k)
           && after == before[i := InsertCell(before[i], k, after[i].cells[k])]
         else
           && i == |before| && after == before + [after[i]]
           && after[i].pages == PagesFor(req + OVERHEAD)
           && after[i].cells == [Cell(after[i].addr + 24, req + OVERHEAD, req)]
           && NoRoomIn(before, |before|, req + OVERHEAD + 24)
    }

    /**
     Where the search stands: at block `at` of the old heap, or at a block just
     added. `core` and `mem` are the fields and the page tables it began with.
     */
    ghost predicate Searching(before: seq<Block>, core: State, mem: Memory, at: nat, startedBet: bool, grown: bool,
                              need: nat)
      reads this, os
      requires need >= 24 && os.pd < FRAMES
    {
      && at < |blocks| && inuse == core.inuse && AllKept(core.bytes, bytes, before)
      && if grown then
           && at == |before| && |blocks| == at + 1 && blocks[..at] == before
           && blocks[at].cells == [] && blocks[at].pages == PagesFor(need - 24) && BlockSize(blocks[at]) >= need + 24
           && NoRoomIn(before, at, need) && SystemHas(mem, os.pd, need - 24)
           && LowestRun(mem, os.pd, PagesFor(need - 24), blocks[at].addr / 4096)
           && Sought(mem, os.mem, os.pd, PagesFor(need - 24), blocks[at].addr / 4096)
         else
           blocks == before && Core() == core && os.mem == mem && (!startedBet ==> NoRoomIn(before, at, need))
    }

    lemma NewBlockHasRoom(b: Block, need: nat)
      ensures b.cells == [] && BlockSize(b) >= need + 24 ==> HasRoom(b, need)
    {
      if b.cells == [] && BlockSize(b) >= need + 24 {
        assert Gap(b, 0) >= need;
      }
    }

    /** Cases 2 to 4, with the pages in place and other contents kept. */
    method PlaceKept(maj: nat, size: nat, req: nat, ghost at: nat) returns (p: nat, ghost k: nat)
      requires Shape() && at < |blocks| && maj == blocks[at].addr && size == req + OVERHEAD
      requires BlockSize(blocks[at]) - Usage(blocks[at]) >= size + 24
      modifies `majors, `minors, `bytes, `inuse, `blocks
      ensures Shape()
      ensures p == 0 ==> Fields() == old(Fields()) && blocks == old(blocks) && !HasRoom(blocks[at], size + 24)
      ensures p != 0 ==>
                && FirstFit(old(blocks)[at], size + 24, k) && k <= |old(blocks)[at].cells|
                && inuse == old(inuse) + size && AllKept(old(bytes), bytes, old(blocks))
                && var c := NewCell(old(blocks), at, k, size, req);
                   blocks == old(blocks)[at := InsertCell(old(blocks)[at], k, c)] && p == Payload(c)
    {
      ghost var was, fields := blocks, Fields();
      p, k := PlaceIn(maj, size, req, at);
      if p != 0 {
        ghost var c := NewCell(was, at, k, size, req);
        SettledUpdate(was, at, InsertCell(was[at], k, c));
        TakeGapKeepsContents(fields, was, at, k, c);
      }
    }

    /** Cases 2 to 4 at the current block. A block just added always has room. */
    method Place(maj: nat, size: nat, req: nat, ghost before: seq<Block>, ghost core: State, ghost mem: Memory,
                 ghost at: nat, ghost grown: bool)
      returns (p: nat, ghost k: nat)
      requires Shape() && Searching(before, core, mem, at, true, grown, size + 24)
      requires maj == blocks[at].addr && size == req + OVERHEAD
      requires BlockSize(blocks[at]) - Usage(blocks[at]) >= size + 24
      modifies `majors, `minors, `bytes, `inuse, `blocks
      ensures Shape()
      ensures p == 0 ==> !grown && Fields() == old(Fields()) && blocks == old(blocks) && !HasRoom(blocks[at], size + 24)
      ensures p != 0 ==> Found(Done(p), core, mem, before, at, k, req)
      ensures p != 0 ==> HasRoom(old(blocks)[at], size + 24) && at < |blocks| && SameShell(old(blocks)[at], blocks[at])
    {
      ghost var was, bytes0 := blocks, bytes;
      p, k := PlaceKept(maj, size, req, at);
      if p != 0 {
        KeptTwice(core.bytes, bytes0, bytes, before, was);
        PlacedThere(before, was, blocks, at, k, size, req, grown);
        assert FoundIn(Part.Invariant, Done(p), core, mem, before, at, k, req);
        assert FoundIn(Part.Lists, Done(p), core, mem, before, at, k, req);
        assert FoundIn(Part.Totals, Done(p), core, mem, before, at, k, req);
        assert FoundIn(Part.Mapping, Done(p), core, mem, before, at, k, req);
      } else {
        NewBlockHasRoom(was[at], size + 24);
      }
    }

    /** What a new allocation makes of the blocks of the search. */
    lemma PlacedThere(before: seq<Block>, was: seq<Block>, after: seq<Block>, at: nat, k: nat, size: nat, req: nat,
                      grown: bool)
      requires at < |was| && size == req + OVERHEAD && FirstFit(was[at], size + 24, k) && k <= |was[at].cells|
      requires if grown then
                 && at == |before| && |was| == at + 1 && was[..at] == before && NoRoomIn(before, at, size + 24)
                 && was[at].cells == [] && was[at].pages == PagesFor(size)
               else
                 was == before
      requires after == was[at := InsertCell(was[at], k, NewCell(was, at, k, size, req))]
      ensures Placed(before, after, at, k, req) && after[at].cells[k] == NewCell(was, at, k, size, req)
      ensures HasRoom(was[at], size + 24) && SameShell(was[at], after[at])
    {
      var b := after[at];
      assert b.cells[k] == NewCell(was, at, k, size, req);
      if grown {
        assert after == before + [b];
        assert b.cells == [b.cells[0]];
      }
    }

    /**
     Leaves a block without room: on to the next one, back to the root if the
     search began at the best bet, or into a new block.
     */
    method Advance(maj0: nat, startedBet: bool, size: nat, ghost req: nat, ghost before: seq<Block>, ghost core: State,
                   ghost mem: Memory, ghost at0: nat)
      returns (r: Outcome, move: Move, maj: nat, ghost at: nat)
      requires Shape() && size == req + OVERHEAD && size + 48 < WORD
      requires Searching(before, core, mem, at0, startedBet, false, size + 24) && maj0 == blocks[at0].addr
      requires !HasRoom(blocks[at0], size + 24)
      modifies Repr()
      ensures bestBet == old(bestBet) && Leaves(|before|, move, at0, startedBet, at)
      ensures r.Done? ==> Counted(move == Stop)
      ensures r.Panicked? ==> move == Stop
      ensures move == Stop && r.Done? ==> r.address == 0
      ensures r.Done? ==> os.pd == old(os.pd) && os.top == old(os.top)
      ensures Turned(move == Stop, r, maj, startedBet, startedBet && move != Restarted, before, core, mem,
                     at0, at, false, move == Grew, 0, req)
    {
      r, at := Done(0), at0;
      ListFacts(at0);
      if majors[maj0].next != 0 {
        return r, Hop, majors[maj0].next, at0 + 1;
      }
      if startedBet {
        ListFacts(0);
        return r, Restarted, memRoot, 0;
      }
      r, move, maj, at := GrowList(maj0, size, req, before, core, mem, at0);
    }

    /** A new block behind the last one, for the search to go on in. */
    method GrowList(maj0: nat, size: nat, ghost req: nat, ghost before: seq<Block>, ghost core: State,
                    ghost mem: Memory, ghost at0: nat)
      returns (r: Outcome, move: Move, maj: nat, ghost at: nat)
      requires Shape() && size == req + OVERHEAD && size + 48 < WORD && at0 + 1 == |before|
      requires Searching(before, core, mem, at0, false, false, size + 24) && maj0 == blocks[at0].addr
      requires !HasRoom(blocks[at0], size + 24)
      modifies Repr()
      ensures bestBet == old(bestBet) && Leaves(|before|, move, at0, false, at)
      ensures r.Done? ==> Counted(move == Stop)
      ensures r.Panicked? ==> move == Stop
      ensures move == Stop && r.Done? ==> r.address == 0
      ensures r.Done? ==> os.pd == old(os.pd) && os.top == old(os.top)
      ensures Turned(move == Stop, r, maj, false, false, before, core, mem, at0, at, false, move == Grew, 0, req)
    {
      PagesSuffice(size);
      r := AppendBlock(maj0, size);
      if r.Panicked? || r.address == 0 {
        return r, Stop, 0, at0;
      }
      assert blocks[..at0 + 1] == before;
      KeptTwice(core.bytes, old(bytes), bytes, before, before);
      ListFacts(at0 + 1);
      return r, Grew, r.address, at0 + 1;
    }

    /** The next pointer of block `i` leads to block `i + 1` and is null at the end; addresses are not null. */
    lemma ListFacts(i: nat)
      requires Inv(Fields(), blocks) && i < |blocks|
      ensures blocks[i].addr in majors && blocks[i].addr != 0 && memRoot == blocks[0].addr
      ensures majors[blocks[i].addr].next == 0 <==> i + 1 == |blocks|
      ensures i + 1 < |blocks| ==> majors[blocks[i].addr].next == blocks[i + 1].addr
    {
      assert Represents(Fields(), blocks, Headers);
      assert MajorLinked(majors, blocks, i) && BlockAt(blocks, i);
      if i + 1 < |blocks| {
        assert BlockAt(blocks, i + 1);
      }
    }

    /** What the counters of block `i` tell: unused memory, and no room if that is too little. */
    lemma CounterFacts(i: nat, need: nat)
      requires Inv(Fields(), blocks) && i < |blocks|
      ensures blocks[i].addr in majors && blocks[i].addr != 0
      ensures var m := majors[blocks[i].addr];
              && m.size - m.usage == BlockSize(blocks[i]) - Usage(blocks[i]) >= 0
              && (m.size - m.usage < need ==> !HasRoom(blocks[i], need))
    {
      BlockFacts(i);
      GapAtMostUnused(blocks[i], 0);
      if BlockSize(blocks[i]) - Usage(blocks[i]) < need {
        SkipIsSound(blocks[i], need);
      }
    }

    /** Where the search begins: at the best bet if it has enough unused memory, else at the root. */
    method Begin(size: nat, ghost before: seq<Block>, ghost core: State, ghost mem: Memory, ghost grown: bool)
      returns (maj: nat, startedBet: bool, bestSize: nat, ghost at: nat)
      requires os.pd < FRAMES && Inv(Fields(), blocks) && Searching(before, core, mem, 0, false, grown, size + 24)
      requires grown ==> bestBet == 0
      ensures Searching(before, core, mem, at, startedBet, grown, size + 24) && maj == blocks[at].addr && maj != 0
      ensures EnRoute(before, bestBet, size + 24, startedBet, at, Bet(bestBet, bestSize))
    {
      ghost var plan := Plan(0, false, Bet(0, 0));
      assert Represents(Fields(), blocks, Headers);
      maj, startedBet, bestSize, at := memRoot, false, 0, 0;
      CounterFacts(0, 0);
      if bestBet != 0 {
        ghost var j: nat :| j < |blocks| && blocks[j].addr == bestBet;
        CounterFacts(j, 0);
        assert Hinted(before, bestBet, j);
        bestSize := majors[bestBet].size - majors[bestBet].usage;
        plan := Plan(0, false, Bet(bestBet, bestSize));
        if bestSize > size + 24 {
          maj, startedBet, at := bestBet, true, j;
          plan := Plan(j, true, Bet(bestBet, bestSize));
        }
      }
      assert Begins(before, bestBet, size + 24, plan);
    }

    /** The result of the search: a panic, no memory, or an allocation; one part of the heap at a time. */
    ghost predicate Found(r: Outcome, core: State, mem: Memory, before: seq<Block>, i: nat, k: nat, req: nat)
      reads Repr(), others
    {
      forall part: Part :: FoundIn(part, r, core, mem, before, i, k, req)
    }

    ghost predicate FoundIn(part: Part, r: Outcome, core: State, mem: Memory, before: seq<Block>,
                            i: nat, k: nat, req: nat)
      reads Repr(), others
    {
      var size := req + OVERHEAD;
      match part
      case Invariant =>
        if r.Panicked? then os.frames.Free() == {} else Shape()
      case Lists =>
        if r.Panicked? then NoRoomIn(before, |before|, size + 24)
        else if r.address == 0 then blocks == before && NoRoomIn(before, |before|, size + 24)
        else Placed(before, blocks, i, k, req) && r.address == Payload(blocks[i].cells[k])
      case Totals =>
        r.Done? ==>
          if r.address == 0 then Core() == core
          else inuse == core.inuse + size && AllKept(core.bytes, bytes, before)
      case Mapping =>
        r.Done? ==>
          && os.pd < FRAMES
          && if r.address == 0 then
               && !SystemHas(mem, os.pd, size) && !SystemHas(os.mem, os.pd, size)
               && Sought(mem, os.mem, os.pd, PagesFor(size), 0)
             else if i < |before| then
               os.mem == mem
             else
               && i < |blocks| && SystemHas(mem, os.pd, size)
               && LowestRun(mem, os.pd, PagesFor(size), blocks[i].addr / 4096)
               && Sought(mem, os.mem, os.pd, PagesFor(size), blocks[i].addr / 4096)
    }

    lemma AllFound(r: Outcome, core: State, mem: Memory, before: seq<Block>, i: nat, k: nat, req: nat)
      requires Found(r, core, mem, before, i, k, req)
      ensures FoundIn(Part.Invariant, r, core, mem, before, i, k, req)
      ensures FoundIn(Part.Lists, r, core, mem, before, i, k, req)
      ensures FoundIn(Part.Totals, r, core, mem, before, i, k, req)
      ensures FoundIn(Part.Mapping, r, core, mem, before, i, k, req)
    {
    }

    /** What one turn of the search loop leads to. */
    ghost predicate Turned(done: bool, r: Outcome, maj: nat, startedBet0: bool, startedBet: bool,
                           before: seq<Block>, core: State, mem: Memory,
                           at0: nat, at: nat, grown0: bool, grown: bool, k: nat, req: nat)
      reads Repr(), others
    {
      if done then
        Found(r, core, mem, before, at, k, req) && (r == Done(0) ==> !grown0)
      else
        && r.Done? && Shape()
        && Searching(before, core, mem, at, startedBet, grown, req + OVERHEAD + 24) && maj == blocks[at].addr
        && maj != 0
        && (grown0 ==> grown)
        && ((startedBet0 && !startedBet)
            || (startedBet == startedBet0 && ((!grown0 && grown) || (grown == grown0 && at > at0))))
    }

    /** The search as a whole: done, or somewhere in the list. */
    ghost predicate Underway(done: bool, r: Outcome, maj: nat, startedBet: bool, before: seq<Block>, core: State,
                             mem: Memory, at: nat, grown0: bool, grown: bool, k: nat, req: nat)
      reads Repr(), others
    {
      if done then
        Found(r, core, mem, before, at, k, req) && (r == Done(0) ==> !grown0)
      else
        && Shape() && Searching(before, core, mem, at, startedBet, grown, req + OVERHEAD + 24) && maj == blocks[at].addr
        && (grown0 ==> grown)
    }

    /** Case 1: not enough unused memory in this block. A block added here is used at once. */
    method SkipBlock(maj0: nat, startedBet0: bool, size: nat, req: nat, ghost before: seq<Block>, ghost core: State,
                     ghost mem: Memory, ghost at0: nat)
      returns (done: bool, r: Outcome, maj: nat, startedBet: bool,
               ghost at: nat, ghost grown: bool, ghost k: nat)
      requires Shape() && size == req + OVERHEAD && size + 48 < WORD
      requires Searching(before, core, mem, at0, startedBet0, false, size + 24) && maj0 == blocks[at0].addr
      requires Unused(blocks[at0]) < size + 24 && !HasRoom(blocks[at0], size + 24)
      modifies Repr()
      ensures bestBet == old(bestBet)
      ensures r.Done? ==> Steps(before, size + 24, old(blocks)[at0], at0, startedBet0, at, startedBet, done, r.address,
                                blocks)
      ensures r.Done? ==> Counted(done && r.address == 0)
      ensures r.Done? ==> os.pd == old(os.pd) && os.top == old(os.top)
      ensures Turned(done, r, maj, startedBet0, startedBet, before, core, mem, at0, at, false, grown, k, req)
    {
      ghost var b := blocks[at0];
      k := 0;
      var move;
      r, move, maj, at := Advance(maj0, startedBet0, size, req, before, core, mem, at0);
      done, startedBet, grown := move == Stop, startedBet0 && move != Restarted, move == Grew;
      if move == Grew {
        CounterFacts(at, 0);
        var p;
        p, k := Place(maj, size, req, before, core, mem, at, true);
        done, r := true, Done(p);
      }
      assert r.Done? ==> Stepped(before, size + 24, b, at0, startedBet0, move, at, startedBet, done, r.address, blocks);
    }

    /** Cases 2 to 5: the block has enough unused memory, but perhaps not in one piece. */
    method SearchBlock(maj0: nat, startedBet0: bool, size: nat, req: nat,
                       ghost before: seq<Block>, ghost core: State, ghost mem: Memory, ghost at0: nat,
                       ghost grown0: bool)
      returns (done: bool, r: Outcome, maj: nat, startedBet: bool,
               ghost at: nat, ghost grown: bool, ghost k: nat)
      requires Shape() && size == req + OVERHEAD && size + 48 < WORD
      requires Searching(before, core, mem, at0, startedBet0, grown0, size + 24) && maj0 == blocks[at0].addr
      requires Unused(blocks[at0]) >= size + 24
      modifies Repr()
      ensures bestBet == old(bestBet)
      ensures r.Done? ==> Steps(before, size + 24, old(blocks)[at0], at0, startedBet0, at, startedBet, done, r.address,
                                blocks)
      ensures r.Done? ==> Counted(done && r.address == 0)
      ensures r.Done? ==> os.pd == old(os.pd) && os.top == old(os.top)
      ensures Turned(done, r, maj, startedBet0, startedBet, before, core, mem, at0, at, grown0, grown, k, req)
    {
      maj, startedBet, at, grown := maj0, startedBet0, at0, grown0;
      ghost var b := blocks[at0];
      var p;
      p, k := Place(maj0, size, req, before, core, mem, at0, grown0);
      if p != 0 {
        done, r := true, Done(p);
        assert Stepped(before, size + 24, b, at0, startedBet0, Here, at, startedBet, done, p, blocks);
        return;
      }
      done, r, maj, startedBet, at, grown, k := LeaveFull(maj0, startedBet0, size, req, before, core, mem, at0);
    }

    /** Case 5: the block is full. A block added here is looked at in the next turn. */
    method LeaveFull(maj0: nat, startedBet0: bool, size: nat, req: nat, ghost before: seq<Block>, ghost core: State,
                     ghost mem: Memory, ghost at0: nat)
      returns (done: bool, r: Outcome, maj: nat, startedBet: bool,
               ghost at: nat, ghost grown: bool, ghost k: nat)
      requires Shape() && size == req + OVERHEAD && size + 48 < WORD
      requires Searching(before, core, mem, at0, startedBet0, false, size + 24) && maj0 == blocks[at0].addr
      requires Unused(blocks[at0]) >= size + 24 && !HasRoom(blocks[at0], size + 24)
      modifies Repr()
      ensures bestBet == old(bestBet)
      ensures r.Done? ==> Steps(before, size + 24, old(blocks)[at0], at0, startedBet0, at, startedBet, done, r.address,
                                blocks)
      ensures r.Done? ==> Counted(done && r.address == 0)
      ensures r.Done? ==> os.pd == old(os.pd) && os.top == old(os.top)
      ensures Turned(done, r, maj, startedBet0, startedBet, before, core, mem, at0, at, false, grown, k, req)
    {
      ghost var b := blocks[at0];
      var move;
      k := 0;
      r, move, maj, at := Advance(maj0, startedBet0, size, req, before, core, mem, at0);
      done, startedBet, grown := move == Stop, startedBet0 && move != Restarted, move == Grew;
      assert r.Done? ==> Stepped(before, size + 24, b, at0, startedBet0, move, at, startedBet, done, r.address, blocks);
    }

    /** The unused memory of a block, remembered as the best bet if it beats the one so far. */
    method RememberBet(maj: nat, bestSize0: nat, ghost at: nat) returns (diff: nat, bestSize: nat)
      requires Shape() && at < |blocks| && maj == blocks[at].addr
      modifies `bestBet
      ensures Shape() && Core() == old(Core()) && diff == Unused(blocks[at])
      ensures Bet(bestBet, bestSize) == Better(blocks[at], Bet(old(bestBet), bestSize0))
    {
      CounterFacts(at, 0);
      diff, bestSize := majors[maj].size - majors[maj].usage, bestSize0;
      if bestSize < diff {
        BetKeepsInv(Fields(), blocks, at);
        bestBet, bestSize := maj, diff;
      }
    }

    /** One turn of the search loop: place the request in the current block or move on. */
    method Visit(maj0: nat, startedBet0: bool, bestSize0: nat, size: nat, req: nat,
                 ghost before: seq<Block>, ghost core: State, ghost mem: Memory, ghost at0: nat, ghost grown0: bool)
      returns (done: bool, r: Outcome, maj: nat, startedBet: bool, bestSize: nat,
               ghost at: nat, ghost grown: bool, ghost k: nat)
      requires Shape() && size == req + OVERHEAD && size + 48 < WORD
      requires Searching(before, core, mem, at0, startedBet0, grown0, size + 24) && maj0 == blocks[at0].addr
      modifies Repr()
      ensures Bet(bestBet, bestSize) == Better(old(blocks)[at0], Bet(old(bestBet), bestSize0))
      ensures r.Done? ==> Steps(before, size + 24, old(blocks)[at0], at0, startedBet0, at, startedBet, done, r.address,
                                blocks)
      ensures r.Done? ==> os.pd == old(os.pd) && os.top == old(os.top)
      ensures r.Done? ==> Counted(done && r.address == 0)
      ensures Turned(done, r, maj, startedBet0, startedBet, before, core, mem, at0, at, grown0, grown, k, req)
    {
      var diff: nat;
      diff, bestSize := RememberBet(maj0, bestSize0, at0);
      CounterFacts(at0, size + 24);
      if diff < size + 24 {
        done, r, maj, startedBet, at, grown, k :=
          SkipBlock(maj0, startedBet0, size, req, before, core, mem, at0);
      } else {
        done, r, maj, startedBet, at, grown, k :=
          SearchBlock(maj0, startedBet0, size, req, before, core, mem, at0, grown0);
      }
    }

    /** The same turn, on the way from where the search began. */
    method TakeTurn(maj0: nat, startedBet0: bool, bestSize0: nat, size: nat, req: nat,
                    ghost before: seq<Block>, ghost core: State, ghost mem: Memory, ghost at0: nat, ghost grown0: bool,
                    ghost hint: nat)
      returns (done: bool, r: Outcome, maj: nat, startedBet: bool, bestSize: nat,
               ghost at: nat, ghost grown: bool, ghost k: nat)
      requires Shape() && size == req + OVERHEAD && size + 48 < WORD
      requires Searching(before, core, mem, at0, startedBet0, grown0, size + 24) && maj0 == blocks[at0].addr
      requires EnRoute(before, hint, size + 24, startedBet0, at0, Bet(bestBet, bestSize0))
      modifies Repr()
      ensures r.Done? ==> os.pd == old(os.pd) && os.top == old(os.top)
      ensures r.Done? ==> Counted(done && r.address == 0)
      ensures Turned(done, r, maj, startedBet0, startedBet, before, core, mem, at0, at, grown0, grown, k, req)
      ensures if !done then EnRoute(before, hint, size + 24, startedBet, at, Bet(bestBet, bestSize))
              else r.Done? ==> Routed(before, hint, size + 24, r.address, at, blocks, bestBet)
    {
      ghost var b, bet := blocks[at0], Bet(bestBet, bestSize0);
      done, r, maj, startedBet, bestSize, at, grown, k :=
        Visit(maj0, startedBet0, bestSize0, size, req, before, core, mem, at0, grown0);
      if r.Done? {
        RouteOn(before, hint, size + 24, b, at0, startedBet0, bet, at, startedBet, done, r.address, blocks);
      }
    }

    /**
     The search loop: from the best bet if there is a promising one, otherwise
     from the root; through the rest of the list, once more from the root if it
     began at the best bet, and finally into a new block.
     */
    method Search(size: nat, req: nat, ghost before: seq<Block>, ghost core: State, ghost mem: Memory,
                  ghost grown0: bool)
      returns (r: Outcome, ghost i: nat, ghost k: nat)
      requires Shape() && Searching(before, core, mem, 0, false, grown0, size + 24)
      requires size == req + OVERHEAD && size + 48 < WORD && (grown0 ==> bestBet == 0)
      modifies Repr()
      ensures Found(r, core, mem, before, i, k, req)
      ensures r.Done? ==> os.pd == old(os.pd) && os.top == old(os.top)
      ensures r == Done(0) ==> !grown0
      ensures r.Done? ==> Counted(r.address == 0)
      ensures r.Done? ==> Routed(before, old(bestBet), size + 24, r.address, i, blocks, bestBet)
    {
      ghost var grown := grown0;
      ghost var hint := bestBet;
      var done, maj, startedBet, bestSize := false, 0, false, 0;
      maj, startedBet, bestSize, i := Begin(size, before, core, mem, grown);
      k := 0;
      r := Done(0);
      while !done
        invariant Underway(done, r, maj, startedBet, before, core, mem, i, grown0, grown, k, req)
        invariant !done || r.Done? ==> os.pd == old(os.pd) && os.top == old(os.top)
        invariant !done || r.Done? ==> Counted(done && r.address == 0)
        invariant if !done then EnRoute(before, hint, size + 24, startedBet, i, Bet(bestBet, bestSize))
                  else r.Done? ==> Routed(before, hint, size + 24, r.address, i, blocks, bestBet)
        decreases !done, startedBet, !grown, |blocks| - i
      {
        done, r, maj, startedBet, bestSize, i, grown, k :=
          TakeTurn(maj, startedBet, bestSize, size, req, before, core, mem, i, grown, hint);
      }
    }

    /**
     Allocates `req` bytes. On success allocation `k` of block `i` is new and its
     payload is returned; pages are asked for only when no gap of any block is
     large enough, and null means that the system has no such run of pages either.
     */
    method Malloc(req: nat) returns (r: Outcome, ghost i: nat, ghost k: nat)
      requires Valid() && req + OVERHEAD + 48 < WORD
      modifies Repr()
      ensures Found(r, old(Core()), old(os.mem), old(blocks), i, k, req)
      ensures r.Done? ==> Valid() && os.pd == old(os.pd) && os.top == old(os.top)
      ensures r.Done? ==> Counted(r.address == 0)
      ensures r.Done? ==> Routed(old(blocks), old(bestBet), req + OVERHEAD + 24, r.address, i, blocks, bestBet)
    {
      assert Represents(Fields(), blocks, Headers);
      var size := GrossSize(req);
      ghost var before := blocks;
      ghost var grown := false;
      if memRoot == 0 {
        EmptyHeap();
        PagesSuffice(size);
        r := AppendBlock(0, size);
        if r.Panicked? || r.address == 0 {
          i, k := 0, 0;
          NoRoute(size + 24, blocks);
          return;
        }
        grown := true;
      }
      r, i, k := Search(size, req, before, old(Core()), old(os.mem), grown);
      assert FoundIn(Part.Invariant, r, old(Core()), old(os.mem), before, i, k, req);
      assert FoundIn(Part.Lists, r, old(Core()), old(os.mem), before, i, k, req);
    }

    lemma EmptyHeap()
      requires Inv(Fields(), blocks) && memRoot == 0
      ensures blocks == [] && bestBet == 0
    {
      assert Represents(Fields(), blocks, Headers);
      assert BlockAt(blocks, 0);
    }

    // ----- free -----

    /** Where `UNALIGN` and the header size lead from a pointer. */
    function HeaderOf(ptr: nat): (header: int)
      requires ptr >= 16 && ptr - 16 in bytes
      reads this
      ensures header == if bytes[ptr - 16] < 32 then ptr - bytes[ptr - 16] - 24 else ptr - 24
    {
      var diff := bytes[ptr - 16];
      (if diff < OVERHEAD then ptr - diff else ptr) - 24
    }

    /** The memory `free` looks at: the alignment byte, and a header that was written at some time. */
    ghost predicate Readable(ptr: nat)
      reads this
    {
      ptr >= 16 && ptr - 16 in bytes && HeaderOf(ptr) >= 0 && HeaderOf(ptr) in minors
    }

    /** The pointer of every allocation is readable and leads back to its header. */
    lemma PayloadReadable(i: nat, k: nat)
      requires Inv(Fields(), blocks) && i < |blocks| && k < |blocks[i].cells|
      ensures Readable(Payload(blocks[i].cells[k])) && HeaderOf(Payload(blocks[i].cells[k])) == blocks[i].cells[k].addr
      ensures minors[blocks[i].cells[k].addr] == MinorAt(blocks[i], k)
    {
      AllFacets(Fields(), blocks);
      assert AlignByte(bytes, blocks, i, k) && MinorsLinked(minors, blocks, i) && CellLinked(minors, blocks[i], k);
    }

    /** A header with the magic number is the header of an allocation. */
    lemma MagicMeansLive(a: nat) returns (i: nat, k: nat)
      requires Inv(Fields(), blocks) && a in minors && minors[a].magic == MAGIC
      ensures CellHere(blocks, i, k, a)
    {
      assert Represents(Fields(), blocks, Liveness);
      assert LiveOrDead(minors, blocks, a);
      i, k :| CellHere(blocks, i, k, a);
    }

    /** Takes an allocation out of its block's list and marks its header dead. */
    method Unlink(min: nat, ghost i: nat, ghost k: nat) returns (maj: nat)
      requires Inv(Fields(), blocks) && CellHere(blocks, i, k, min)
      modifies `majors, `minors, `inuse, `blocks
      ensures maj == old(blocks)[i].addr && min in minors && minors[min].magic == 0xdead_dead
      ensures Fields() == FreeCell(old(Fields()), old(blocks), i, k)
      ensures blocks == old(blocks)[i := RemoveCell(old(blocks)[i], k)] && Inv(Fields(), blocks)
    {
      ghost var before, b := Fields(), blocks[i];
      BlockFacts(i);
      assert CellLinked(minors, b, k);
      FreeCellKeepsInv(before, blocks, i, k);
      RemovedIsOk(b, k);
      var header := minors[min];
      maj := header.block;
      inuse := inuse - header.size;
      majors := majors[maj := majors[maj].(usage := majors[maj].usage - (header.size + 24))];
      Rewire(min, b, k);
      if header.prev == 0 {
        NoSuchPrev(b, k);
        majors := majors[maj := majors[maj].(first := header.next)];
      } else {
        assert k > 0;
      }
      blocks := blocks[i := RemoveCell(b, k)];
    }

    lemma NoSuchPrev(b: Block, k: nat)
      requires BlockOk(b) && k < |b.cells| && CellAddr(b, k - 1) == 0
      ensures k == 0
    {
      if k > 0 {
        CellInside(b, k - 1);
      }
    }

    /** Points the neighbours of an allocation at each other. */
    method Rewire(min: nat, ghost b: Block, ghost k: nat)
      requires BlockOk(b) && CellsLinked(minors, b) && k < |b.cells| && min == b.cells[k].addr
      modifies `minors
      ensures minors == Removed(old(minors), b, k) && min in minors && minors[min].magic == 0xdead_dead
    {
      assert CellLinked(minors, b, k) && (k > 0 ==> CellLinked(minors, b, k - 1)) && CellLinked(minors, b, k + 1);
      if k > 0 {
        CellsDiffer(b, k - 1, k);
        CellInside(b, k - 1);
      }
      if k + 1 < |b.cells| {
        CellsDiffer(b, k + 1, k);
        CellInside(b, k + 1);
        if k > 0 {
          CellsDiffer(b, k + 1, k - 1);
        }
      }
      minors := minors[min := minors[min].(magic := DEAD)];
      var next, prev := minors[min].next, minors[min].prev;
      if next != 0 {
        minors := minors[next := minors[next].(prev := prev)];
      }
      if prev != 0 {
        minors := minors[prev := minors[prev].(next := next)];
      }
    }

    /** Takes an empty block out of the list of blocks. */
    method Unhook(maj: nat, ghost i: nat)
      requires Inv(Fields(), blocks) && i < |blocks| && maj == blocks[i].addr && blocks[i].cells == []
      modifies `majors, `minors, `bytes, `memRoot, `bestBet, `reserved, `blocks
      ensures Fields() == Shrink(old(Fields()), old(blocks), i)
      ensures blocks == old(blocks)[..i] + old(blocks)[i + 1..] && Inv(Fields(), blocks)
      ensures AllKept(old(bytes), bytes, old(blocks))
    {
      assert Represents(Fields(), blocks, Headers);
      ghost var before, was := Fields(), blocks;
      assert MajorLinked(majors, blocks, i);
      var next, size := majors[maj].next, majors[maj].size;
      // The block's memory is about to go back to the system.
      var otherMinors, otherBytes := Outside(minors, maj, maj + size), Outside(bytes, maj, maj + size);
      ghost var after := Shrink(before, was, i);
      assert otherMinors == after.minors && otherBytes == after.bytes;
      RewireBlocks(maj, i);
      minors, bytes, reserved := otherMinors, otherBytes, reserved - size;
      if memRoot == maj {
        memRoot := next;
      }
      if bestBet == maj {
        bestBet := 0;
      }
      blocks := blocks[..i] + blocks[i + 1..];
      assert Fields() == after;
      ShrinkKeepsInv(before, was, i);
      ShrinkKeepsContents(before, was, i);
    }

    /** Points the neighbours of a block at each other and drops its header. */
    method RewireBlocks(maj: nat, ghost i: nat)
      requires HeapOk(blocks) && MajorsLinked(majors, blocks) && i < |blocks| && maj == blocks[i].addr
      modifies `majors
      ensures majors == Unhooked(old(majors), blocks, i)
    {
      assert MajorLinked(majors, blocks, i);
      NeighbourFacts(majors, blocks, i);
      var header := majors[maj];
      if header.prev != 0 {
        majors := majors[header.prev := majors[header.prev].(next := header.next)];
      }
      if header.next != 0 {
        majors := majors[header.next := majors[header.next].(prev := header.prev)];
      }
      majors := majors - {maj};
    }

    lemma NeighbourFacts(majors: Majors, blocks: seq<Block>, i: nat)
      requires HeapOk(blocks) && MajorsLinked(majors, blocks) && i < |blocks|
      ensures AddrOf(blocks, i - 1) == 0 <==> i == 0
      ensures AddrOf(blocks, i + 1) == 0 <==> i + 1 == |blocks|
      ensures i > 0 ==> blocks[i - 1].addr in majors && blocks[i - 1].addr != blocks[i].addr
      ensures i + 1 < |blocks| ==> blocks[i + 1].addr in majors && blocks[i + 1].addr != blocks[i].addr
      ensures 0 < i && i + 1 < |blocks| ==> blocks[i - 1].addr != blocks[i + 1].addr
    {
      if i > 0 {
        assert BlockAt(blocks, i - 1) && MajorLinked(majors, blocks, i - 1);
        AddrsDiffer(blocks, i - 1, i);
      }
      if i + 1 < |blocks| {
        assert BlockAt(blocks, i + 1) && MajorLinked(majors, blocks, i + 1);
        AddrsDiffer(blocks, i + 1, i);
        if i > 0 {
          AddrsDiffer(blocks, i - 1, i + 1);
        }
      }
    }

    /** The block left empty goes back to the system. */
    method ReturnBlock(maj: nat, ghost i: nat)
      requires Shape() && i < |blocks| && maj == blocks[i].addr && blocks[i].cells == []
      modifies Repr()
      ensures Shape() && os.pd == old(os.pd) && os.top == old(os.top)
      ensures blocks == old(blocks)[..i] + old(blocks)[i + 1..]
      ensures AllKept(old(bytes), bytes, old(blocks)) && Counted(false)
      ensures bestBet == if old(bestBet) == maj then 0 else old(bestBet)
      ensures maj / 4096 + old(blocks)[i].pages <= WINDOW_PAGE && os.mem[os.pd] == old(os.mem)[os.pd]
      ensures FreedPages(old(os.mem), old(os.frames.Used()), os.mem, os.frames.Used(), os.pd,
                         maj / 4096, old(blocks)[i].pages)
    {
      ghost var was := blocks;
      BlockFacts(i);
      var pages := majors[maj].pages;
      Unhook(maj, i);
      ReturnPages(maj, pages, was, i);
    }

    /** The system hook: the pages of a block no longer in the list go back. */
    method ReturnPages(maj: nat, pages: nat, ghost was: seq<Block>, ghost i: nat)
      requires HeapOk(was) && i < |was| && maj == was[i].addr && pages == was[i].pages && Settled(was)
      modifies os.Repr()
      ensures Settled(was[..i] + was[i + 1..]) && os.pd < FRAMES && os.pd == old(os.pd) && os.top == old(os.top)
      ensures maj / 4096 + pages <= WINDOW_PAGE && os.mem[os.pd] == old(os.mem)[os.pd]
      ensures FreedPages(old(os.mem), old(os.frames.Used()), os.mem, os.frames.Used(), os.pd, maj / 4096, pages)
    {
      ghost var around, rest := others.around, was[..i] + was[i + 1..];
      assert Shares(was, Accounts) && Shares(was, Places);
      assert ExtentOf(was[i]) in Extents(was);
      ReleaseExtent(os, Extent(maj / 4096, pages), Holdings(around, was), around.start, around.base);
      HousedShrinks(old(os.mem), os.mem, os.pd, around, was, i);
      assert Shares(rest, Accounts) && Shares(rest, Places);
    }

    /** The hint after a free: the block, if it now has more unused memory than the best bet. */
    method UpdateBet(maj: nat, ghost i: nat)
      requires Inv(Fields(), blocks) && i < |blocks| && maj == blocks[i].addr
      modifies `bestBet
      ensures Inv(Fields(), blocks) && HintReconsidered(blocks, i, old(bestBet), bestBet)
    {
      assert Represents(Fields(), blocks, Headers);
      BlockFacts(i);
      if bestBet != 0 {
        ghost var j: nat :| j < |blocks| && blocks[j].addr == bestBet;
        BlockFacts(j);
        assert Hinted(blocks, bestBet, j);
        CounterFacts(j, 0);
        CounterFacts(i, 0);
        var bestSize := AsInt(majors[bestBet].size - majors[bestBet].usage);
        var majSize := AsInt(majors[maj].size - majors[maj].usage);
        if majSize > bestSize {
          BetKeepsInv(Fields(), blocks, i);
          bestBet := maj;
        }
      }
    }

    /** A 32-bit value stored into a signed integer. */
    function AsInt(x: int): (r: int)
      ensures 0 <= x < WORD ==> r == Signed(x)
    {
      if x % WORD < WORD / 2 then x % WORD else x % WORD - WORD
    }

    /** 1 if the low bytes of a bad magic number are those of the right one; the lowest byte decides. */
    function PossibleOverrun(magic: nat): (n: nat)
      ensures n == if magic % 0x100 == 0xDE then 1 else 0
    {
      if || magic % 0x100_0000 == MAGIC % 0x100_0000
         || magic % 0x1_0000 == MAGIC % 0x1_0000
         || magic % 0x100 == MAGIC % 0x100
      then 1 else 0
    }

    /**
     Frees an allocation: its gap opens up, and a block that becomes empty goes
     back to the system. A null pointer and a header without the magic number are
     only counted.
     */
    method Free(ptr: nat) returns (ghost i: nat, ghost k: nat)
      requires Valid() && (ptr == 0 || Readable(ptr))
      modifies Repr()
      ensures Valid() && os.pd == old(os.pd) && os.top == old(os.top)
      ensures ptr == 0 ==>
                Fields() == old(Fields()) && blocks == old(blocks) && Counted(true)
      ensures ptr != 0 && old(minors[HeaderOf(ptr)].magic) != MAGIC ==>
                && Fields() == old(Fields()) && blocks == old(blocks)
                && errorCount == old(errorCount) + 1 && possibleOverruns == old(possibleOverruns)
                && warningCount == old(warningCount)
      ensures ptr != 0 && old(minors[HeaderOf(ptr)].magic) == MAGIC ==>
                && CellHere(old(blocks), i, k, old(HeaderOf(ptr)))
                && blocks == WithoutCell(old(blocks), i, k)
                && AllKept(old(bytes), bytes, blocks) && Counted(false)
                && HintAfterFree(old(blocks), i, k, old(bestBet), bestBet)
                && os.pd < FRAMES && PagesAfterFree(old(blocks), i, old(os.mem), os.mem, os.pd)
      ensures ptr == 0 || old(minors[HeaderOf(ptr)].magic) != MAGIC ==> os.mem == old(os.mem)
    {
      assert Represents(Fields(), blocks, Liveness);
      i, k := 0, 0;
      if ptr == 0 {
        warningCount := warningCount + 1;
        return;
      }
      var min: nat := HeaderOf(ptr);
      var magic := minors[min].magic;
      if magic != MAGIC {
        assert LiveOrDead(minors, blocks, min);
        LiveHasMagic(min);
        errorCount := errorCount + 1;
        possibleOverruns := possibleOverruns + PossibleOverrun(magic);
        return;
      }
      i, k := MagicMeansLive(min);
      FreeLive(min, i, k);
    }

    /** The abstract heap without allocation `k` of block `i`. */
    static ghost function WithoutCell(blocks: seq<Block>, i: nat, k: nat): seq<Block>
      requires i < |blocks| && k < |blocks[i].cells|
    {
      if |blocks[i].cells| == 1 then blocks[..i] + blocks[i + 1..] else blocks[i := RemoveCell(blocks[i], k)]
    }

    lemma LiveHasMagic(a: nat)
      requires Inv(Fields(), blocks)
      ensures Live(blocks, a) ==> a in minors && minors[a].magic == MAGIC == 0xc001_c0de
    {
      assert Represents(Fields(), blocks, Headers);
      if Live(blocks, a) {
        var i: nat, k: nat :| CellHere(blocks, i, k, a);
        assert MinorsLinked(minors, blocks, i) && CellLinked(minors, blocks[i], k);
      }
    }

    /** An allocation leaves its list; the block may now be empty. */
    method DropCell(min: nat, ghost i: nat, ghost k: nat) returns (maj: nat)
      requires Shape() && CellHere(blocks, i, k, min)
      modifies `majors, `minors, `inuse, `blocks
      ensures Shape() && maj == old(blocks)[i].addr
      ensures blocks == old(blocks)[i := RemoveCell(old(blocks)[i], k)]
    {
      ghost var was := blocks;
      maj := Unlink(min, i, k);
      SettledUpdate(was, i, RemoveCell(was[i], k));
    }

    /** Returns the block if it is empty, and otherwise reconsiders the hint. */
    method Tidy(maj: nat, ghost i: nat)
      requires Shape() && i < |blocks| && maj == blocks[i].addr
      modifies Repr()
      ensures Shape() && os.pd == old(os.pd) && os.top == old(os.top)
      ensures blocks == if old(blocks)[i].cells == [] then old(blocks)[..i] + old(blocks)[i + 1..] else old(blocks)
      ensures AllKept(old(bytes), bytes, old(blocks)) && Counted(false)
      ensures if old(blocks)[i].cells == [] then bestBet == (if old(bestBet) == maj then 0 else old(bestBet))
              else HintReconsidered(old(blocks), i, old(bestBet), bestBet)
      ensures os.pd < FRAMES
      ensures if old(blocks)[i].cells == [] then Vacated(old(os.mem), os.mem, os.pd, maj / 4096, old(blocks)[i].pages)
              else os.mem == old(os.mem)
    {
      BlockFacts(i);
      if majors[maj].first == 0 {
        NoSuchCell(blocks[i], 0);
        ReturnBlock(maj, i);
      } else {
        UpdateBet(maj, i);
      }
    }

    method FreeLive(min: nat, ghost i: nat, ghost k: nat)
      requires Valid() && CellHere(blocks, i, k, min)
      modifies Repr()
      ensures Valid() && os.pd == old(os.pd) && os.top == old(os.top)
      ensures blocks == WithoutCell(old(blocks), i, k)
      ensures AllKept(old(bytes), bytes, blocks) && Counted(false)
      ensures HintAfterFree(old(blocks), i, k, old(bestBet), bestBet)
      ensures os.pd < FRAMES && PagesAfterFree(old(blocks), i, old(os.mem), os.mem, os.pd)
    {
      ghost var was := blocks;
      var maj := DropCell(min, i, k);
      ghost var mid := blocks;
      Tidy(maj, i);
      NoneLeftEmpty(was, i, k);
      if mid[i].cells == [] {
        KeptInFewer(old(bytes), bytes, mid, i);
      }
    }

    lemma NoneLeftEmpty(was: seq<Block>, i: nat, k: nat)
      requires i < |was| && k < |was[i].cells| && NoEmptyBlock(was)
      ensures var mid := was[i := RemoveCell(was[i], k)];
              && (mid[i].cells == [] <==> |was[i].cells| == 1)
              && WithoutCell(was, i, k) == (if mid[i].cells == [] then mid[..i] + mid[i + 1..] else mid)
      ensures NoEmptyBlock(WithoutCell(was, i, k))
    {
    }

    lemma KeptInFewer(bytes: Bytes, bytes': Bytes, blocks: seq<Block>, i: nat)
      requires i < |blocks| && AllKept(bytes, bytes', blocks)
      ensures AllKept(bytes, bytes', blocks[..i] + blocks[i + 1..])
    {
      var rest := blocks[..i] + blocks[i + 1..];
      forall j: nat, l: nat
        ensures KeptAt(bytes, bytes', rest, j, l)
      {
        assert KeptAt(bytes, bytes', blocks, if j < i then j else j + 1, l);
      }
    }

    // ----- realloc -----

    lemma CellsAfterMalloc(before: seq<Block>, after: seq<Block>, i: nat, k: nat, req: nat)
      requires HeapOk(after) && Placed(before, after, i, k, req)
      ensures Cells(after) == Cells(before) + {after[i].cells[k]} && after[i].cells[k] !in Cells(before)
      ensures i < |before| ==> k <= |before[i].cells| && before[i] == RemoveCell(after[i], k)
    {
      var c := after[i].cells[k];
      if i < |before| {
        CellsAfterInsert(before, i, k, c);
        RemoveUndoesInsert(before[i], k, c);
        CellsAfterRemove(after, i, k);
        assert before == after[i := RemoveCell(after[i], k)];
      } else {
        CellsAfterAppend(before, after[i]);
        assert Cells([after[i]]) == {c};
        if c in Cells(before) {
          var j, l :| 0 <= j < |before| && 0 <= l < |before[j].cells| && before[j].cells[l] == c;
          CellPosition(after, j, l, i, k);
        }
      }
    }

    lemma CellsAfterFree(before: seq<Block>, i: nat, k: nat)
      requires HeapOk(before) && i < |before| && k < |before[i].cells|
      ensures Cells(WithoutCell(before, i, k)) == Cells(before) - {before[i].cells[k]}
    {
      CellsAfterRemove(before, i, k);
      if |before[i].cells| == 1 {
        var emptied := before[i := RemoveCell(before[i], k)];
        CellsAfterEmpty(emptied, i);
        assert emptied[..i] + emptied[i + 1..] == before[..i] + before[i + 1..];
      }
    }

    /** Memory after the first `n` bytes at `src` have been copied to `dst`. */
    ghost function Copied(bytes: Bytes, dst: nat, src: nat, n: nat): Bytes
      requires forall x | src <= x < src + n :: x in bytes
    {
      if n == 0 then bytes else Copied(bytes, dst, src, n - 1)[dst + n - 1 := bytes[src + n - 1]]
    }

    lemma {:induction false} CopiedAt(bytes: Bytes, dst: nat, src: nat, n: nat, x: nat)
      requires forall x | src <= x < src + n || dst <= x < dst + n :: x in bytes
      ensures x in Copied(bytes, dst, src, n) <==> x in bytes
      ensures x in bytes ==>
                Copied(bytes, dst, src, n)[x] == if dst <= x < dst + n then bytes[src + (x - dst)] else bytes[x]
    {
      if n > 0 {
        CopiedAt(bytes, dst, src, n - 1, x);
      }
    }

    method CopyByte(d: nat, s: nat, ghost was: Bytes, ghost dst: nat, ghost src: nat, ghost k: nat, ghost n: nat)
      requires forall x | src <= x < src + n || dst <= x < dst + n :: x in was
      requires (src + n <= dst || dst + n <= src) && k < n && d == dst + k && s == src + k
      requires bytes == Copied(was, dst, src, k)
      modifies `bytes
      ensures bytes == Copied(was, dst, src, k + 1)
    {
      CopiedAt(was, dst, src, k, s);
      bytes := bytes[d := bytes[s]];
    }

    /** One load and one store of four bytes. */
    method CopyWord(d: nat, s: nat, ghost was: Bytes, ghost dst: nat, ghost src: nat, ghost k: nat, ghost n: nat)
      requires forall x | src <= x < src + n || dst <= x < dst + n :: x in was
      requires (src + n <= dst || dst + n <= src) && k + 4 <= n && d == dst + k && s == src + k
      requires bytes == Copied(was, dst, src, k)
      modifies `bytes
      ensures bytes == Copied(was, dst, src, k + 4)
    {
      CopiedAt(was, dst, src, k, s);
      CopiedAt(was, dst, src, k, s + 1);
      CopiedAt(was, dst, src, k, s + 2);
      CopiedAt(was, dst, src, k, s + 3);
      assert Copied(was, dst, src, k + 2) == bytes[d := bytes[s]][d + 1 := bytes[s + 1]];
      bytes := bytes[d := bytes[s]][d + 1 := bytes[s + 1]][d + 2 := bytes[s + 2]][d + 3 := bytes[s + 3]];
    }

    /** Copies `n` bytes, four at a time while that is possible. The ranges do not overlap. */
    method CopyBytes(dst: nat, src: nat, n: nat)
      requires forall x | src <= x < src + n || dst <= x < dst + n :: x in bytes
      requires src + n <= dst || dst + n <= src
      modifies `bytes
      ensures bytes == Copied(old(bytes), dst, src, n)
    {
      ghost var k := 0;
      var left: nat, d, s := n, dst, src;
      assert bytes == Copied(bytes, dst, src, 0);
      while left >= 4
        invariant k + left == n && d == dst + k && s == src + k && bytes == Copied(old(bytes), dst, src, k)
      {
        CopyWord(d, s, old(bytes), dst, src, k, n);
        d, s, left, k := d + 4, s + 4, left - 4, k + 4;
      }
      while left > 0
        invariant k + left == n && d == dst + k && s == src + k && bytes == Copied(old(bytes), dst, src, k)
      {
        CopyByte(d, s, old(bytes), dst, src, k, n);
        d, s, left, k := d + 1, s + 1, left - 1, k + 1;
      }
    }

    /** Where an allocation sits in the lists. */
    lemma FindCell(blocks: seq<Block>, c: Cell) returns (i: nat, k: nat)
      requires c in Cells(blocks)
      ensures i < |blocks| && k < |blocks[i].cells| && blocks[i].cells[k] == c
    {
      i, k :| 0 <= i < |blocks| && 0 <= k < |blocks[i].cells| && blocks[i].cells[k] == c;
    }

    /** `n` bytes at `p` in one memory are the bytes at `q` in the other. */
    ghost predicate SameBytes(bytes: Bytes, p: nat, bytes': Bytes, q: nat, n: nat) {
      forall j: nat :: SameByte(bytes, p, bytes', q, n, j)
    }

    ghost predicate SameByte(bytes: Bytes, p: nat, bytes': Bytes, q: nat, n: nat, j: nat) {
      j < n ==> p + j in bytes && q + j in bytes' && bytes'[q + j] == bytes[p + j]
    }

    lemma SameBytesPrefix(bytes: Bytes, p: nat, bytes': Bytes, q: nat, n: nat, m: nat)
      requires SameBytes(bytes, p, bytes', q, n) && m <= n
      ensures SameBytes(bytes, p, bytes', q, m)
    {
      forall j: nat
        ensures SameByte(bytes, p, bytes', q, m, j)
      {
        assert SameByte(bytes, p, bytes', q, n, j);
      }
    }

    lemma SameBytesTwice(bytes: Bytes, p: nat, bytes': Bytes, q: nat, bytes'': Bytes, r: nat, m: nat, n: nat)
      requires SameBytes(bytes, p, bytes', q, m) && SameBytes(bytes', q, bytes'', r, n)
      ensures SameBytes(bytes, p, bytes'', r, if m < n then m else n)
    {
      var l := if m < n then m else n;
      forall j: nat
        ensures SameByte(bytes, p, bytes'', r, l, j)
      {
        assert SameByte(bytes, p, bytes', q, m, j) && SameByte(bytes', q, bytes'', r, n, j);
      }
    }

    /** Where payloads lie in memory. */
    lemma PayloadFacts(c: Cell) returns (i: nat, k: nat)
      requires Inv(Fields(), blocks) && c in Cells(blocks)
      ensures i < |blocks| && k < |blocks[i].cells| && blocks[i].cells[k] == c
      ensures c.addr + 24 < Payload(c) && Payload(c) + c.req < CellEnd(c)
      ensures forall x | c.addr <= x < CellEnd(c) :: x in bytes
    {
      assert Represents(Fields(), blocks, Contents);
      i, k := FindCell(blocks, c);
      assert BlockAt(blocks, i) && Covered(bytes, blocks, i);
      PayloadInside(blocks[i], k);
      CellInside(blocks[i], k);
    }

    lemma CopyWritesInto(bytes: Bytes, c: Cell, src: nat, n: nat)
      requires n <= c.req && forall x | src <= x < src + n || Payload(c) <= x < Payload(c) + n :: x in bytes
      ensures var bytes' := Copied(bytes, Payload(c), src, n);
              WritesInto(bytes, bytes', c) && SameBytes(bytes, src, bytes', Payload(c), n)
    {
      var bytes' := Copied(bytes, Payload(c), src, n);
      forall x: nat
        ensures x in bytes' <==> x in bytes
        ensures x in bytes && !(Payload(c) <= x < Payload(c) + n) ==> bytes'[x] == bytes[x]
      {
        CopiedAt(bytes, Payload(c), src, n, x);
      }
      forall j: nat
        ensures SameByte(bytes, src, bytes', Payload(c), n, j)
      {
        CopiedAt(bytes, Payload(c), src, n, Payload(c) + j);
      }
    }

    /** Copies the first `n` payload bytes of allocation `d` to those of allocation `c`. */
    method CopyPayload(n: nat, dst: nat, src: nat, ghost c: Cell, ghost d: Cell)
      requires Valid() && c in Cells(blocks) && d in Cells(blocks) && c != d
      requires dst == Payload(c) && src == Payload(d) && n <= c.req && n <= d.req
      modifies `bytes
      ensures Valid()
      ensures SameBytes(old(bytes), src, bytes, dst, n)
      ensures forall e | e in Cells(blocks) && e != c :: Kept(old(bytes), bytes, e)
    {
      ghost var i, k := PayloadFacts(c);
      ghost var j, l := PayloadFacts(d);
      CellsDisjoint(blocks, i, k, j, l);
      ghost var before := Fields();
      CopyBytes(dst, src, n);
      CopyWritesInto(before.bytes, c, src, n);
      WriteKeepsInv(before, blocks, i, k, bytes);
      OthersKept(before.bytes, bytes, blocks, i, k);
    }

    lemma OthersKept(bytes: Bytes, bytes': Bytes, blocks: seq<Block>, i: nat, k: nat)
      requires i < |blocks| && k < |blocks[i].cells|
      requires forall j: nat, l: nat | j != i || l != k :: KeptAt(bytes, bytes', blocks, j, l)
      ensures forall e | e in Cells(blocks) && e != blocks[i].cells[k] :: Kept(bytes, bytes', e)
    {
      forall e | e in Cells(blocks) && e != blocks[i].cells[k]
        ensures Kept(bytes, bytes', e)
      {
        var x, y := FindCell(blocks, e);
        assert KeptAt(bytes, bytes', blocks, x, y);
      }
    }

    /**
     What the owner of an allocation may do: store a byte into its payload. The
     invariant and every other allocation's bytes survive.
     */
    method Store(x: nat, value: nat, ghost c: Cell)
      requires Valid() && c in Cells(blocks) && Payload(c) <= x < Payload(c) + c.req
      modifies `bytes
      ensures Valid() && bytes == old(bytes)[x := value]
      ensures forall e | e in Cells(blocks) && e != c :: Kept(old(bytes), bytes, e)
    {
      ghost var i, k := PayloadFacts(c);
      ghost var before := Fields();
      bytes := bytes[x := value];
      WriteKeepsInv(before, blocks, i, k, bytes);
      OthersKept(before.bytes, bytes, blocks, i, k);
    }

    /** The blocks, the hint and the page tables: all that decides where allocations go. */
    ghost function Plot(): Layout
      reads this, os
    {
      Layout(blocks, bestBet, os.mem)
    }

    /** What `malloc` of `size` bytes does to the layout. */
    static ghost predicate Supplies(pd: nat, s: Layout, size: nat, address: nat, s': Layout)
      requires pd < FRAMES
    {
      exists i: nat, k: nat :: SuppliesAt(pd, s, size, address, s', i, k)
    }

    static ghost predicate SuppliesAt(pd: nat, s: Layout, size: nat, address: nat, s': Layout, i: nat, k: nat)
      requires pd < FRAMES
    {
      && Routed(s.blocks, s.hint, size + OVERHEAD + 24, address, i, s'.blocks, s'.hint)
      && if address == 0 then
           s'.blocks == s.blocks && Sought(s.mem, s'.mem, pd, PagesFor(size + OVERHEAD), 0)
         else
           && Placed(s.blocks, s'.blocks, i, k, size) && address == Payload(s'.blocks[i].cells[k])
           && if i < |s.blocks| then s'.mem == s.mem
              else Sought(s.mem, s'.mem, pd, PagesFor(size + OVERHEAD), s'.blocks[i].addr / 4096)
    }

    /** What `free` of allocation `d` does to the layout. */
    static ghost predicate Withdraws(pd: nat, s: Layout, d: Cell, s': Layout)
      requires pd < FRAMES
    {
      exists i: nat, k: nat :: WithdrawsAt(pd, s, d, s', i, k)
    }

    static ghost predicate WithdrawsAt(pd: nat, s: Layout, d: Cell, s': Layout, i: nat, k: nat)
      requires pd < FRAMES
    {
      && i < |s.blocks| && k < |s.blocks[i].cells| && s.blocks[i].cells[k] == d
      && s'.blocks == WithoutCell(s.blocks, i, k) && HintAfterFree(s.blocks, i, k, s.hint, s'.hint)
      && PagesAfterFree(s.blocks, i, s.mem, s'.mem, pd)
    }

    /** The pages of a block emptied by a free are unmapped; no other entry of the page tables changes. */
    static ghost predicate PagesAfterFree(before: seq<Block>, i: nat, mem: Memory, mem': Memory, pd: nat)
      requires pd < FRAMES && i < |before|
    {
      if |before[i].cells| == 1 then Vacated(mem, mem', pd, before[i].addr / 4096, before[i].pages) else mem' == mem
    }

    static ghost predicate Vacated(mem: Memory, mem': Memory, pd: nat, p: nat, n: nat)
      requires pd < FRAMES
    {
      mem'[pd] == mem[pd] && SameOutside(mem, mem', pd, p, n) && Run(mem', pd, p, n)
    }

    /** One after the other: a move. */
    static ghost predicate MovesVia(pd: nat, s: Layout, d: Cell, size: nat, address: nat, s': Layout)
      requires pd < FRAMES
    {
      exists mid: Layout :: Supplies(pd, s, size, address, mid) && Withdraws(pd, mid, d, s')
    }

    /** Allocation `d` keeps its place, and only the size asked for changes. */
    static ghost predicate Records(s: Layout, d: Cell, size: nat, s': Layout) {
      exists i: nat, k: nat :: RecordsAt(s, d, size, s', i, k)
    }

    static ghost predicate RecordsAt(s: Layout, d: Cell, size: nat, s': Layout, i: nat, k: nat) {
      && i < |s.blocks| && k < |s.blocks[i].cells| && s.blocks[i].cells[k] == d
      && s' == s.(blocks := s.blocks[i := WithReq(s.blocks[i], k, size)])
    }

    /** Frees the allocation `c` by its pointer. */
    method FreePayload(p: nat, ghost c: Cell)
      requires Valid() && c in Cells(blocks) && p == Payload(c)
      modifies Repr()
      ensures Valid() && os.pd == old(os.pd) && os.top == old(os.top)
      ensures Cells(blocks) == Cells(old(blocks)) - {c}
      ensures forall e | e in Cells(blocks) :: Kept(old(bytes), bytes, e)
      ensures Counted(false) && os.pd < FRAMES && Withdraws(os.pd, old(Plot()), c, Plot())
    {
      ghost var i, k := FindCell(blocks, c);
      ghost var was, before := blocks, Plot();
      PayloadReadable(i, k);
      ghost var i', k' := Free(p);
      CellUnique(was, i, k, i', k', c.addr);
      assert WithdrawsAt(os.pd, before, c, Plot(), i, k);
      CellsAfterFree(was, i, k);
      forall e | e in Cells(blocks)
        ensures Kept(old(bytes), bytes, e)
      {
        KeptCell(old(bytes), bytes, blocks, e);
      }
    }

    /** The second step of a move: allocation `c` is new, and the contents of `d` are copied into it. */
    method CopyInto(realSize: nat, dst: nat, src: nat, ghost c: Cell, ghost d: Cell,
                    ghost blocks0: seq<Block>, ghost bytes0: Bytes)
      requires Valid() && HeapOk(blocks0) && BytesOk(bytes0, blocks0)
      requires forall e | e in Cells(blocks0) :: Kept(bytes0, bytes, e)
      requires d in Cells(blocks0) && c !in Cells(blocks0) && Cells(blocks) == Cells(blocks0) + {c}
      requires dst == Payload(c) && src == Payload(d) && realSize == d.req <= c.req
      modifies `bytes
      ensures Valid() && SameBytes(bytes0, src, bytes, dst, realSize)
      ensures forall e | e in Cells(blocks0) :: Kept(bytes0, bytes, e)
    {
      PayloadBytesKept(bytes0, blocks0, bytes, d);
      ghost var mid := bytes;
      CopyPayload(realSize, dst, src, c, d);
      SameBytesTwice(bytes0, src, mid, src, bytes, dst, realSize, realSize);
      KeptThrough(bytes0, mid, bytes, blocks0, c);
    }

    /** What one step keeps for all and the next for all but a new allocation is kept. */
    lemma KeptThrough(bytes0: Bytes, bytes1: Bytes, bytes2: Bytes, blocks: seq<Block>, c: Cell)
      requires c !in Cells(blocks) && forall e | e in Cells(blocks) :: Kept(bytes0, bytes1, e)
      requires forall e | e in Cells(blocks) && e != c :: Kept(bytes1, bytes2, e)
      ensures forall e | e in Cells(blocks) :: Kept(bytes0, bytes2, e)
    {
      forall e | e in Cells(blocks)
        ensures Kept(bytes0, bytes2, e)
      {
        assert Kept(bytes0, bytes1, e) && Kept(bytes1, bytes2, e);
      }
    }

    /** A request for `size` bytes panics: no gap is large enough, and no frame is left for a new block. */
    ghost predicate NoFrameFor(blocks: seq<Block>, size: nat)
      reads os.frames, os.frames.usable, os.frames.used
    {
      os.frames.Free() == {} && NoRoomIn(blocks, |blocks|, size + OVERHEAD + 24)
    }

    /**
     Moves an allocation that has become too small: allocate, copy, free. The result
     of the allocation is not checked, so that without room the contents are copied to
     address 0; an allocation of no bytes has none, and is freed.
     */
    method MoveLarger(p: nat, size: nat, realSize: nat, ghost d: Cell) returns (r: ReallocOutcome, ghost c: Cell)
      requires Valid() && size + OVERHEAD + 48 < WORD && realSize < size
      requires d in Cells(blocks) && p == Payload(d) && realSize == d.req
      modifies Repr()
      ensures r.Aborted? ==> NoFrameFor(old(blocks), size)
      ensures !r.Aborted? ==> (r.CopiesToNull? <==> CopyFails(old(blocks), old(os.mem), old(os.pd), d, size))
      ensures r.Returned? ==> Valid() && os.pd == old(os.pd) && os.top == old(os.top)
      ensures r.Returned? ==>
                if HadRoom(old(blocks), old(os.mem), old(os.pd), size + OVERHEAD) then
                  Reallocated(old(blocks), old(bytes), d, r.address, c, size)
                else
                  realSize == 0 && r.address == 0 && Dropped(old(blocks), old(bytes), d)
      ensures r.Returned? ==>
                && Counted(r.address == 0)
                && os.pd < FRAMES && MovesVia(os.pd, old(Plot()), d, size, r.address, Plot())
    {
      assert Represents(Fields(), blocks, Contents);
      r, c := AllocateFresh(size);
      if r.Aborted? {
        return;
      }
      if r.address == 0 && realSize > 0 {
        return CopiesToNull, c;
      }
      if r.address == 0 {
        FreePayload(p, d);
      } else {
        CopyAndFree(p, r.address, size, realSize, c, d, old(blocks), old(bytes));
      }
    }

    /** The rest of a move: the contents of allocation `d` are copied to `c`, and `d` is freed. */
    method CopyAndFree(p: nat, address: nat, size: nat, realSize: nat, ghost c: Cell, ghost d: Cell,
                       ghost blocks0: seq<Block>, ghost bytes0: Bytes)
      requires Valid() && HeapOk(blocks0) && BytesOk(bytes0, blocks0)
      requires p == Payload(d) && address == Payload(c) && c.req == size && realSize == d.req < size
      requires d in Cells(blocks0) && c !in Cells(blocks0) && Cells(blocks) == Cells(blocks0) + {c}
      requires forall e | e in Cells(blocks0) :: Kept(bytes0, bytes, e)
      modifies Repr()
      ensures Valid() && os.pd == old(os.pd) && os.top == old(os.top)
      ensures Reallocated(blocks0, bytes0, d, address, c, size)
      ensures Counted(false) && os.pd < FRAMES && Withdraws(os.pd, old(Plot()), d, Plot())
    {
      CopyInto(realSize, address, p, c, d, blocks0, bytes0);
      FreeMoved(p, address, size, c, d, blocks0, bytes0);
    }

    method FreeMoved(p: nat, address: nat, size: nat, ghost c: Cell, ghost d: Cell,
                     ghost blocks0: seq<Block>, ghost bytes0: Bytes)
      requires Valid() && p == Payload(d) && address == Payload(c) && c.req == size && d.req < size
      requires d in Cells(blocks0) && c !in Cells(blocks0) && Cells(blocks) == Cells(blocks0) + {c}
      requires SameBytes(bytes0, p, bytes, address, d.req)
      requires forall e | e in Cells(blocks0) :: Kept(bytes0, bytes, e)
      modifies Repr()
      ensures Valid() && os.pd == old(os.pd) && os.top == old(os.top)
      ensures Reallocated(blocks0, bytes0, d, address, c, size)
      ensures Counted(false) && os.pd < FRAMES && Withdraws(os.pd, old(Plot()), d, Plot())
    {
      ghost var mid, was := bytes, blocks;
      assert Represents(Fields(), blocks, Contents);
      FreePayload(p, d);
      PayloadBytesKept(mid, was, bytes, c);
      SameBytesTwice(bytes0, p, mid, address, bytes, address, d.req, size);
    }

    /** Allocation `d` is gone, and everything else is kept. */
    ghost predicate Dropped(blocks0: seq<Block>, bytes0: Bytes, d: Cell)
      reads this
    {
      Cells(blocks) == Cells(blocks0) - {d} && forall e | e in Cells(blocks) :: Kept(bytes0, bytes, e)
    }

    /** The bytes of a kept allocation's payload. */
    lemma PayloadBytesKept(bytes: Bytes, blocks: seq<Block>, bytes': Bytes, c: Cell)
      requires HeapOk(blocks) && BytesOk(bytes, blocks) && c in Cells(blocks) && Kept(bytes, bytes', c)
      ensures SameBytes(bytes, Payload(c), bytes', Payload(c), c.req)
    {
      var i, k := FindCell(blocks, c);
      assert BlockAt(blocks, i) && Covered(bytes, blocks, i);
      CellInside(blocks[i], k);
      PayloadInside(blocks[i], k);
    }

    /** Allocation `d` has become `c`: the common prefix of the contents is kept, and so is everything else. */
    ghost predicate Reallocated(blocks0: seq<Block>, bytes0: Bytes, d: Cell, address: nat, c: Cell, size: nat)
      reads this
    {
      && address == Payload(c) && c.req == size && Cells(blocks) == Cells(blocks0) - {d} + {c}
      && (address == Payload(d) || c !in Cells(blocks0))
      && SameBytes(bytes0, Payload(d), bytes, address, if d.req < size then d.req else size)
      && (forall e | e in Cells(blocks0) && e != d :: Kept(bytes0, bytes, e))
    }

    /** What became of allocation `d`: it is `c` now, or it had no contents, there was no room, and it is gone. */
    ghost predicate Resized(blocks0: seq<Block>, bytes0: Bytes, mem0: Memory, pd0: nat, d: Cell, address: nat, c: Cell,
                            size: nat)
      requires pd0 < FRAMES
      reads this
    {
      if size <= d.req || HadRoom(blocks0, mem0, pd0, size + OVERHEAD) then
        Reallocated(blocks0, bytes0, d, address, c, size)
      else
        address == 0 && Dropped(blocks0, bytes0, d)
    }

    /** A pointer that was handed out, whether or not it has been freed since. */
    ghost predicate OwnPointer(p: nat)
      reads this
    {
      Readable(p) && (minors[HeaderOf(p)].magic == MAGIC ==> p == Align(HeaderOf(p) + 24))
    }

    /** A smaller request is recorded in the header; nothing moves. */
    method ShrinkRequest(min: nat, size: nat, ghost i: nat, ghost k: nat)
      requires Valid() && i < |blocks| && k < |blocks[i].cells| && min == blocks[i].cells[k].addr
      requires size <= blocks[i].cells[k].req
      modifies `minors, `blocks
      ensures Valid() && blocks == old(blocks)[i := WithReq(old(blocks)[i], k, size)]
      ensures Cells(blocks) == Cells(old(blocks)) - {old(blocks)[i].cells[k]} + {old(blocks)[i].cells[k].(req := size)}
    {
      assert Represents(Fields(), blocks, Headers);
      ghost var before, was := Fields(), blocks;
      assert MinorsLinked(minors, blocks, i) && CellLinked(minors, blocks[i], k);
      minors := minors[min := minors[min].(req := size)];
      blocks := blocks[i := WithReq(blocks[i], k, size)];
      ResizeKeepsInv(before, was, i, k, size);
      SettledUpdate(was, i, WithReq(was[i], k, size));
      CellsAfterResize(was, i, k, size);
    }

    /**
     Changes the size of an allocation. `d` is the allocation behind a live
     pointer and `c` the resulting one. Contents survive up to the smaller size,
     unless a larger allocation was needed and there was no room for it: then the
     code copies to address 0, or just frees an allocation that has no contents.
     */
    method Realloc(p: nat, size: nat) returns (r: ReallocOutcome, ghost d: Cell, ghost c: Cell)
      requires Valid() && size + OVERHEAD + 48 < WORD && (p == 0 || OwnPointer(p))
      modifies Repr()
      ensures r.Aborted? ==> size > 0 && NoFrameFor(old(blocks), size)
      ensures r.Returned? ==> Valid() && os.pd == old(os.pd) && os.top == old(os.top)
      ensures size == 0 ==> r == Returned(0)
      ensures p == 0 && size == 0 ==> blocks == old(blocks) && bytes == old(bytes)
      ensures p == 0 && size > 0 && r.Returned? ==>
                (r.address != 0 <==> HadRoom(old(blocks), old(os.mem), old(os.pd), size + OVERHEAD))
      ensures p == 0 && size > 0 && r.Returned? && r.address != 0 ==>
                && r.address == Payload(c) && c.req == size && c !in Cells(old(blocks))
                && Cells(blocks) == Cells(old(blocks)) + {c}
                && (forall e | e in Cells(old(blocks)) :: Kept(old(bytes), bytes, e))
      ensures p == 0 && size > 0 ==>
                !r.CopiesToNull? && (r == Returned(0) ==> blocks == old(blocks) && bytes == old(bytes))
      ensures p != 0 && old(minors[HeaderOf(p)].magic) != MAGIC ==>
                && r == Returned(0) && Fields() == old(Fields()) && blocks == old(blocks)
                && errorCount == old(errorCount) + 1
      ensures p != 0 && old(minors[HeaderOf(p)].magic) == MAGIC ==>
                && d in Cells(old(blocks)) && p == Payload(d)
                && (size == 0 ==> Dropped(old(blocks), old(bytes), d))
                && (0 < size <= d.req ==> r == Returned(p))
                && (r.Aborted? ==> size > d.req)
                && (size > 0 && !r.Aborted? ==>
                      (r.CopiesToNull? <==> CopyFails(old(blocks), old(os.mem), old(os.pd), d, size)))
                && (size > 0 && r.Returned? ==>
                      Resized(old(blocks), old(bytes), old(os.mem), old(os.pd), d, r.address, c, size))
      ensures p == 0 && size > 0 && r.Returned? ==>
                os.pd < FRAMES && Supplies(os.pd, old(Plot()), size, r.address, Plot())
      ensures p != 0 && old(minors[HeaderOf(p)].magic) == MAGIC && r.Returned? ==>
                if size == 0 then
                  os.pd < FRAMES && Withdraws(os.pd, old(Plot()), d, Plot())
                else if size <= d.req then
                  Records(old(Plot()), d, size, Plot())
                else
                  os.pd < FRAMES && MovesVia(os.pd, old(Plot()), d, size, r.address, Plot())
      ensures r.Returned? && (p == 0 || old(minors[HeaderOf(p)].magic) == MAGIC) ==>
                Counted(r.address == 0 && (p == 0 || size > 0))
    {
      d, c := Cell(0, 0, 0), Cell(0, 0, 0);
      if size == 0 {
        d := FreeAny(p);
        return Returned(0), d, c;
      }
      if p == 0 {
        r, c := AllocateFresh(size);
        return;
      }
      var min: nat := HeaderOf(p);
      var magic := minors[min].magic;
      if magic != MAGIC {
        errorCount := errorCount + 1;
        possibleOverruns := possibleOverruns + PossibleOverrun(magic);
        return Returned(0), d, c;
      }
      r, d, c := ReallocLive(p, min, size);
    }

    /** `free`, told in terms of the set of allocations. */
    method FreeAny(p: nat) returns (ghost d: Cell)
      requires Valid() && (p == 0 || OwnPointer(p))
      modifies Repr()
      ensures Valid() && os.pd == old(os.pd) && os.top == old(os.top)
      ensures p == 0 ==> Fields() == old(Fields()) && blocks == old(blocks)
      ensures p != 0 && old(minors[HeaderOf(p)].magic) != MAGIC ==>
                Fields() == old(Fields()) && blocks == old(blocks) && errorCount == old(errorCount) + 1
      ensures p != 0 && old(minors[HeaderOf(p)].magic) == MAGIC ==>
                && d in Cells(old(blocks)) && p == Payload(d) && Cells(blocks) == Cells(old(blocks)) - {d}
                && (forall e | e in Cells(blocks) :: Kept(old(bytes), bytes, e))
                && os.pd < FRAMES && Withdraws(os.pd, old(Plot()), d, Plot())
      ensures p == 0 || old(minors[HeaderOf(p)].magic) == MAGIC ==> Counted(p == 0)
    {
      ghost var before := Plot();
      d := Cell(0, 0, 0);
      ghost var was := blocks;
      ghost var i, k := Free(p);
      if p != 0 && old(minors[HeaderOf(p)].magic) == MAGIC {
        d := was[i].cells[k];
        assert WithdrawsAt(os.pd, before, d, Plot(), i, k);
        CellsAfterFree(was, i, k);
        forall e | e in Cells(blocks)
          ensures Kept(old(bytes), bytes, e)
        {
          KeptCell(old(bytes), bytes, blocks, e);
        }
      }
    }

    /** `malloc`, told in terms of the set of allocations. */
    method AllocateFresh(size: nat) returns (r: ReallocOutcome, ghost c: Cell)
      requires Valid() && size + OVERHEAD + 48 < WORD
      modifies Repr()
      ensures r.Aborted? ==> NoFrameFor(old(blocks), size)
      ensures r.Returned? ==> Valid() && os.pd == old(os.pd) && os.top == old(os.top)
      ensures !r.CopiesToNull?
      ensures r == Returned(0) ==> blocks == old(blocks) && bytes == old(bytes)
      ensures r == Returned(0) ==> !HadRoom(old(blocks), old(os.mem), old(os.pd), size + OVERHEAD)
      ensures r.Returned? && r.address != 0 ==>
                && r.address == Payload(c) && c.req == size && c !in Cells(old(blocks))
                && Cells(blocks) == Cells(old(blocks)) + {c}
                && (forall e | e in Cells(old(blocks)) :: Kept(old(bytes), bytes, e))
                && HadRoom(old(blocks), old(os.mem), old(os.pd), size + OVERHEAD)
      ensures r.Returned? ==>
                Counted(r.address == 0) && os.pd < FRAMES && Supplies(os.pd, old(Plot()), size, r.address, Plot())
    {
      c := Cell(0, 0, 0);
      var m;
      ghost var i, k;
      m, i, k := Malloc(size);
      AllFound(m, old(Core()), old(os.mem), old(blocks), i, k, size);
      assert m.Done? ==> SuppliesAt(os.pd, old(Plot()), size, m.address, Plot(), i, k);
      if m.Panicked? {
        return Aborted, c;
      }
      if m.address != 0 {
        c := blocks[i].cells[k];
        CellsAfterMalloc(old(blocks), blocks, i, k, size);
        forall e | e in Cells(old(blocks))
          ensures Kept(old(bytes), bytes, e)
        {
          KeptCell(old(bytes), bytes, old(blocks), e);
        }
      }
      r := Returned(m.address);
    }

    method ShrinkLive(p: nat, min: nat, size: nat, ghost i: nat, ghost k: nat) returns (ghost c: Cell)
      requires Valid() && i < |blocks| && k < |blocks[i].cells| && min == blocks[i].cells[k].addr
      requires size <= blocks[i].cells[k].req && p == Payload(blocks[i].cells[k])
      modifies `minors, `blocks
      ensures Valid() && Reallocated(old(blocks), bytes, old(blocks)[i].cells[k], p, c, size)
      ensures Records(old(Plot()), old(blocks)[i].cells[k], size, Plot())
    {
      assert Represents(Fields(), blocks, Contents);
      ghost var d := blocks[i].cells[k];
      assert d in Cells(blocks);
      PayloadBytesKept(bytes, blocks, bytes, d);
      SameBytesPrefix(bytes, p, bytes, p, d.req, size);
      ShrinkRequest(min, size, i, k);
      assert RecordsAt(old(Plot()), d, size, Plot(), i, k);
      c := d.(req := size);
    }

    method ReallocLive(p: nat, min: nat, size: nat) returns (r: ReallocOutcome, ghost d: Cell, ghost c: Cell)
      requires Valid() && 0 < size && size + OVERHEAD + 48 < WORD && p != 0 && OwnPointer(p)
      requires min == HeaderOf(p) && minors[min].magic == MAGIC
      modifies Repr()
      ensures d in Cells(old(blocks)) && p == Payload(d)
      ensures r.Aborted? ==> size > d.req && NoFrameFor(old(blocks), size)
      ensures size <= d.req ==> r == Returned(p)
      ensures !r.Aborted? ==> (r.CopiesToNull? <==> CopyFails(old(blocks), old(os.mem), old(os.pd), d, size))
      ensures r.Returned? ==> Valid() && os.pd == old(os.pd) && os.top == old(os.top)
      ensures r.Returned? ==> Resized(old(blocks), old(bytes), old(os.mem), old(os.pd), d, r.address, c, size)
      ensures r.Returned? ==>
                && Counted(r.address == 0)
                && if size <= d.req then
                     Records(old(Plot()), d, size, Plot())
                   else
                     os.pd < FRAMES && MovesVia(os.pd, old(Plot()), d, size, r.address, Plot())
    {
      assert Represents(Fields(), blocks, Headers);
      ghost var i, k := MagicMeansLive(min);
      d := blocks[i].cells[k];
      assert d in Cells(blocks);
      assert MinorsLinked(minors, blocks, i) && CellLinked(minors, blocks[i], k);
      var realSize := minors[min].req;
      if realSize >= size {
        c := ShrinkLive(p, min, size, i, k);
        return Returned(p), d, c;
      }
      r, c := MoveLarger(p, size, realSize, d);
    }
  }

  /**
   The outcomes of `realloc`: a panic, an address, or, when the inner allocation
   fails, a copy to address 0, since its result is not checked.
   */
  datatype ReallocOutcome = Aborted | CopiesToNull | Returned(address: nat)

  /** The parts of the heap that an allocation changes. */
  datatype Part = Invariant | Lists | Totals | Mapping

  datatype Layout = Layout(blocks: seq<Block>, hint: nat, mem: Memory)

  datatype Counters = Counters(warnings: nat, errors: nat, overruns: nat)

  /** What there is to say about sharing the address space. */
  datatype Concern = Accounts | Places
}
