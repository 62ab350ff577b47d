/**
 Whole runs of the page allocator: any interleaving of allocations anywhere,
 allocations at an address and releases of ranges still held. Throughout a run
 the held ranges stay mapped and disjoint, and the frames in use are exactly
 those in use at the start, the page tables, and the frames of held pages.
 */
module PagingRuns {
  import opened BitSets
  import opened Options
  import opened PageFrames
  import opened PageTables
  import opened Mmus

  /** A range of pages handed out and not yet given back. */
  datatype Extent = Extent(page: nat, pages: nat)

  datatype Op = Anywhere(n: nat) | At(va: nat, n: nat) | Release(extent: Extent)

  ghost function Pages(e: Extent): set<nat> {
    Range(e.page, e.pages)
  }

  ghost function FramesOf(mem: Memory, pd: nat, pages: set<nat>): set<nat>
    requires pd < FRAMES
  {
    set q | q in pages && q < FRAMES && Walk(mem, pd, q).Some? :: Walk(mem, pd, q).value
  }

  ghost predicate MappedAt(mem: Memory, pd: nat, top: nat, q: nat)
    requires pd < FRAMES
  {
    top < q < WINDOW_PAGE && !Unmapped(mem, pd, q)
  }

  /** `pages` is what the held extents cover; `used0` is what was in use at the start. */
  ghost predicate Ledger(mem: Memory, pd: nat, top: nat, used0: set<nat>, used: set<nat>, pages: set<nat>)
    requires pd < FRAMES
  {
    && (forall q :: q in pages ==> MappedAt(mem, pd, top, q))
    && used == used0 + TableFrames(mem, pd) + FramesOf(mem, pd, pages)
    && used0 !! FramesOf(mem, pd, pages)
  }

  ghost predicate SamePages(mem0: Memory, mem1: Memory, pd: nat, pages: set<nat>)
    requires pd < FRAMES
  {
    forall q: nat :: q in pages ==> SamePage(mem0, mem1, pd, q)
  }

  lemma FramesIn(mem: Memory, pd: nat, p: nat, n: nat)
    requires pd < FRAMES && p + n <= WINDOW_PAGE
    ensures FramesOf(mem, pd, Range(p, n)) == PageFramesIn(mem, pd, p, n)
  {
  }

  lemma SameFrames(mem0: Memory, mem1: Memory, pd: nat, pages: set<nat>)
    requires pd < FRAMES
    requires forall q :: q in pages ==> q < WINDOW_PAGE && SamePage(mem0, mem1, pd, q)
    ensures FramesOf(mem1, pd, pages) == FramesOf(mem0, pd, pages)
  {
  }

  lemma UnionFrames(mem: Memory, pd: nat, a: set<nat>, b: set<nat>)
    requires pd < FRAMES
    ensures FramesOf(mem, pd, a + b) == FramesOf(mem, pd, a) + FramesOf(mem, pd, b)
  {
  }

  lemma MoreTables(mem0: Memory, mem1: Memory, pd: nat)
    requires pd < FRAMES && KeepsTables(mem0, mem1, pd)
    ensures TableFrames(mem0, pd) <= TableFrames(mem1, pd)
  {
    forall f | f in TableFrames(mem0, pd)
      ensures f in TableFrames(mem1, pd)
    {
      var i: nat :| i < SELF_MAP && HasTable(mem0, pd, i) && TableFrame(mem0, pd, i) == f;
      assert HasTable(mem1, pd, i) && TableFrame(mem1, pd, i) == f;
    }
  }

  lemma LedgerAfterAlloc(mem0: Memory, used0: set<nat>, mem1: Memory, used1: set<nat>, pd: nat, top: nat,
                         base: set<nat>, pages: set<nat>, p: nat, n: nat)
    requires pd < FRAMES && top < p && p + n <= WINDOW_PAGE && Run(mem0, pd, p, n)
    requires Ledger(mem0, pd, top, base, used0, pages)
    requires Allocated(mem0, used0, mem1, used1, pd, p, n)
    ensures pages !! Range(p, n) && SamePages(mem0, mem1, pd, pages)
    ensures Ledger(mem1, pd, top, base, used1, pages + Range(p, n))
  {
    forall q | q in pages
      ensures q !in Range(p, n) && MappedAt(mem1, pd, top, q) && SamePage(mem0, mem1, pd, q)
    {
      assert MappedAt(mem0, pd, top, q);
      assert !(p <= q < p + n);
      assert SamePage(mem0, mem1, pd, q);
    }
    forall q | q in Range(p, n)
      ensures MappedAt(mem1, pd, top, q)
    {
      assert Writable(mem1, pd, q);
    }
    SameFrames(mem0, mem1, pd, pages);
    UnionFrames(mem1, pd, pages, Range(p, n));
    FramesIn(mem1, pd, p, n);
    MoreTables(mem0, mem1, pd);
  }

  lemma LedgerAfterTables(mem0: Memory, used0: set<nat>, mem1: Memory, used1: set<nat>, pd: nat, top: nat,
                          base: set<nat>, pages: set<nat>)
    requires pd < FRAMES && Ledger(mem0, pd, top, base, used0, pages)
    requires OnlyTables(mem0, used0, mem1, used1, pd)
    ensures SamePages(mem0, mem1, pd, pages)
    ensures Ledger(mem1, pd, top, base, used1, pages)
  {
    forall q | q in pages
      ensures MappedAt(mem1, pd, top, q) && SamePage(mem0, mem1, pd, q)
    {
      assert MappedAt(mem0, pd, top, q) && SamePage(mem0, mem1, pd, q);
    }
    SameFrames(mem0, mem1, pd, pages);
    MoreTables(mem0, mem1, pd);
  }

  /** Frames of different held pages, and of pages and tables, are different. */
  lemma FramesApart(mem: Memory, pd: nat, top: nat, frames: Frames, owner: map<nat, Owner>, a: set<nat>, b: set<nat>)
    requires Sound(mem, pd, top, frames, owner) && a !! b
    requires forall q :: q in a + b ==> MappedAt(mem, pd, top, q)
    ensures FramesOf(mem, pd, a) !! FramesOf(mem, pd, b)
    ensures FramesOf(mem, pd, a) !! TableFrames(mem, pd)
  {
    forall f | f in FramesOf(mem, pd, a)
      ensures f !in FramesOf(mem, pd, b) && f !in TableFrames(mem, pd)
    {
      var p :| p in a && p < FRAMES && Walk(mem, pd, p) == Some(f);
      assert MappedAt(mem, pd, top, p);
      NoTwoOwners(mem, pd, top, frames, owner, p, f);
      forall q | q in b && q < FRAMES && Walk(mem, pd, q).Some?
        ensures Walk(mem, pd, q).value != f
      {
        assert MappedAt(mem, pd, top, q) && q != p;
      }
    }
  }

  lemma LedgerAfterFree(mem0: Memory, frames: Frames, owner: map<nat, Owner>, mem1: Memory, used1: set<nat>,
                        pd: nat, top: nat, base: set<nat>, pages: set<nat>, p: nat, n: nat)
    requires Sound(mem0, pd, top, frames, owner) && p + n <= WINDOW_PAGE && Range(p, n) <= pages
    requires Ledger(mem0, pd, top, base, frames.used, pages)
    requires FreedPages(mem0, frames.used, mem1, used1, pd, p, n) && mem1[pd] == mem0[pd]
    ensures SamePages(mem0, mem1, pd, pages - Range(p, n))
    ensures Ledger(mem1, pd, top, base, used1, pages - Range(p, n))
  {
    var rest := pages - Range(p, n);
    assert pages == rest + Range(p, n);
    forall q | q in rest
      ensures MappedAt(mem1, pd, top, q) && SamePage(mem0, mem1, pd, q)
    {
      assert MappedAt(mem0, pd, top, q) && SamePage(mem0, mem1, pd, q);
    }
    FramesApart(mem0, pd, top, frames, owner, Range(p, n), rest);
    FramesIn(mem0, pd, p, n);
    UnionFrames(mem0, pd, rest, Range(p, n));
    SameFrames(mem0, mem1, pd, rest);
    SameTableFrames(mem0, mem1, pd);
  }

  lemma SameTableFrames(mem0: Memory, mem1: Memory, pd: nat)
    requires pd < FRAMES && mem1[pd] == mem0[pd]
    ensures TableFrames(mem1, pd) == TableFrames(mem0, pd)
  {
    assert KeepsTables(mem0, mem1, pd) && KeepsTables(mem1, mem0, pd);
    MoreTables(mem0, mem1, pd);
    MoreTables(mem1, mem0, pd);
  }

  /** Translations are those of `mem0`, except that `pages`, unmapped there, may be mapped. */
  ghost predicate AddsOnly(mem0: Memory, mem: Memory, pd: nat, pages: set<nat>)
    requires pd < FRAMES
  {
    && (forall q :: q in pages ==> q < WINDOW_PAGE && Unmapped(mem0, pd, q))
    && (forall q: nat :: q !in pages ==> SamePage(mem0, mem, pd, q))
  }

  lemma AddsAfterAlloc(mem0: Memory, mem1: Memory, mem2: Memory, pd: nat, pages: set<nat>, p: nat, n: nat)
    requires pd < FRAMES && AddsOnly(mem0, mem1, pd, pages) && SameOutside(mem1, mem2, pd, p, n)
    requires p + n <= WINDOW_PAGE && Run(mem1, pd, p, n) && pages !! Range(p, n)
    ensures AddsOnly(mem0, mem2, pd, pages + Range(p, n))
  {
    forall q | q in Range(p, n)
      ensures Unmapped(mem0, pd, q)
    {
      assert SamePage(mem0, mem1, pd, q) && Unmapped(mem1, pd, q);
    }
    forall q: nat | q !in pages + Range(p, n)
      ensures SamePage(mem0, mem2, pd, q)
    {
      assert SamePage(mem0, mem1, pd, q) && SamePage(mem1, mem2, pd, q);
    }
  }

  lemma AddsAfterFree(mem0: Memory, mem1: Memory, mem2: Memory, pd: nat, pages: set<nat>, p: nat, n: nat)
    requires pd < FRAMES && AddsOnly(mem0, mem1, pd, pages) && SameOutside(mem1, mem2, pd, p, n)
    requires p + n <= WINDOW_PAGE && Run(mem2, pd, p, n) && Range(p, n) <= pages
    ensures AddsOnly(mem0, mem2, pd, pages - Range(p, n))
  {
    forall q: nat | q !in pages - Range(p, n)
      ensures SamePage(mem0, mem2, pd, q)
    {
      if q in Range(p, n) {
        assert Unmapped(mem2, pd, q) && Unmapped(mem0, pd, q);
      } else {
        assert SamePage(mem0, mem1, pd, q) && SamePage(mem1, mem2, pd, q);
      }
    }
  }

  lemma AddsAfterTables(mem0: Memory, mem1: Memory, mem2: Memory, pd: nat, pages: set<nat>)
    requires pd < FRAMES && AddsOnly(mem0, mem1, pd, pages) && SameTranslations(mem1, mem2, pd)
    ensures AddsOnly(mem0, mem2, pd, pages)
  {
    forall q: nat | q !in pages
      ensures SamePage(mem0, mem2, pd, q)
    {
      assert SamePage(mem0, mem1, pd, q) && SamePage(mem1, mem2, pd, q);
    }
  }

  // ----- Runs -----

  ghost function HeldPages(held: set<Extent>): set<nat> {
    set e, q | e in held && q in Pages(e) :: q
  }

  ghost predicate Apart(held: set<Extent>) {
    && (forall e :: e in held ==> e.pages > 0)
    && (forall e, e' :: NoOverlap(held, e, e'))
  }

  ghost predicate NoOverlap(held: set<Extent>, e: Extent, e': Extent) {
    e in held && e' in held && e != e' ==> Pages(e) !! Pages(e')
  }

  /** The sides of an account: the ranges themselves, the frames in use, the translations. */
  datatype Side = Ranges | FramesInUse | Translations

  /** One side of how the state accounts for the ranges held since `mem0` and `used0`. */
  ghost predicate Accounts(mem: Memory, pd: nat, top: nat, used: set<nat>, mem0: Memory, used0: set<nat>,
                           held: set<Extent>, side: Side)
    requires pd < FRAMES
  {
    match side
    case Ranges => Apart(held)
    case FramesInUse => Ledger(mem, pd, top, used0, used, HeldPages(held))
    case Translations => AddsOnly(mem0, mem, pd, HeldPages(held))
  }

  /** The state reached by a run that started from `mem0` and `used0`. Proofs look at the sides they need. */
  ghost predicate Reached(m: Mmu, mem0: Memory, used0: set<nat>, held: set<Extent>)
    reads m.Repr()
  {
    m.Valid() && forall side: Side :: Accounts(m.mem, m.pd, m.top, m.frames.Used(), mem0, used0, held, side)
  }

  lemma AllSides(m: Mmu, mem0: Memory, used0: set<nat>, held: set<Extent>)
    requires Reached(m, mem0, used0, held)
    ensures Apart(held) && Ledger(m.mem, m.pd, m.top, used0, m.frames.Used(), HeldPages(held))
    ensures AddsOnly(mem0, m.mem, m.pd, HeldPages(held))
  {
    assert Accounts(m.mem, m.pd, m.top, m.frames.Used(), mem0, used0, held, Ranges);
    assert Accounts(m.mem, m.pd, m.top, m.frames.Used(), mem0, used0, held, FramesInUse);
    assert Accounts(m.mem, m.pd, m.top, m.frames.Used(), mem0, used0, held, Translations);
  }

  lemma StartRun(m: Mmu)
    requires m.Valid()
    ensures Reached(m, m.mem, m.frames.Used(), {})
  {
    m.TablesUsed();
    assert HeldPages({}) == {};
  }

  /** Once nothing is held, only page tables have been added. */
  lemma NothingHeld(m: Mmu, mem0: Memory, used0: set<nat>)
    requires Reached(m, mem0, used0, {})
    ensures SameTranslations(mem0, m.mem, m.pd)
    ensures m.frames.Used() == used0 + TableFrames(m.mem, m.pd)
  {
    AllSides(m, mem0, used0, {});
    assert HeldPages({}) == {};
  }

  lemma PagesOfOne(held: set<Extent>, e: Extent)
    requires e in held
    ensures Pages(e) <= HeldPages(held)
  {
  }

  lemma HoldMore(held: set<Extent>, e: Extent)
    requires Apart(held) && e.pages > 0 && HeldPages(held) !! Pages(e)
    ensures Apart(held + {e}) && HeldPages(held + {e}) == HeldPages(held) + Pages(e)
  {
    var more := held + {e};
    forall a, b
      ensures NoOverlap(more, a, b)
    {
      assert NoOverlap(held, a, b);
      if a in held {
        PagesOfOne(held, a);
      }
      if b in held {
        PagesOfOne(held, b);
      }
    }
    assert e in more;
  }

  lemma HoldLess(held: set<Extent>, e: Extent)
    requires Apart(held) && e in held
    ensures Apart(held - {e}) && HeldPages(held - {e}) == HeldPages(held) - Pages(e)
    ensures Pages(e) <= HeldPages(held)
  {
    var rest := held - {e};
    forall a, b
      ensures NoOverlap(rest, a, b)
    {
      assert NoOverlap(held, a, b);
    }
    forall q | q in HeldPages(held) - Pages(e)
      ensures q in HeldPages(rest)
    {
      var e' :| e' in held && q in Pages(e');
      assert e' in rest;
    }
    forall e' | e' in rest
      ensures Pages(e') !! Pages(e)
    {
      assert NoOverlap(held, e', e);
    }
  }

  // ----- Single operations -----

  /** Some run of `n` pages below the self-map window is unmapped. */
  ghost predicate HasRun(mem: Memory, pd: nat, n: nat)
    requires pd < FRAMES
  {
    n > 0 && exists p: nat :: RunBelow(mem, pd, p, n)
  }

  ghost predicate RunBelow(mem: Memory, pd: nat, p: nat, n: nat)
    requires pd < FRAMES
  {
    p + n <= WINDOW_PAGE && Run(mem, pd, p, n)
  }

  lemma SameRoom(mem: Memory, mem': Memory, pd: nat, n: nat)
    requires pd < FRAMES && SameTranslations(mem, mem', pd)
    ensures HasRun(mem, pd, n) <==> HasRun(mem', pd, n)
  {
    forall p: nat
      ensures RunBelow(mem, pd, p, n) <==> RunBelow(mem', pd, p, n)
    {
      if p + n <= WINDOW_PAGE {
        SameRuns(mem, mem', pd, p, n);
      }
    }
  }

  /** What an allocation does to the pages held: they stay where they are, and tables stay. */
  ghost predicate Undisturbed(mem0: Memory, mem1: Memory, pd: nat, held: set<Extent>)
    requires pd < FRAMES
  {
    SamePages(mem0, mem1, pd, HeldPages(held)) && KeepsTables(mem0, mem1, pd)
  }

  lemma AfterTables(mem0: Memory, used0: set<nat>, mem1: Memory, used1: set<nat>, mem2: Memory, used2: set<nat>,
                    pd: nat, top: nat, held: set<Extent>)
    requires pd < FRAMES && Ledger(mem1, pd, top, used0, used1, HeldPages(held))
    requires AddsOnly(mem0, mem1, pd, HeldPages(held))
    requires OnlyTables(mem1, used1, mem2, used2, pd)
    ensures Ledger(mem2, pd, top, used0, used2, HeldPages(held)) && AddsOnly(mem0, mem2, pd, HeldPages(held))
    ensures Undisturbed(mem1, mem2, pd, held)
  {
    LedgerAfterTables(mem1, used1, mem2, used2, pd, top, used0, HeldPages(held));
    AddsAfterTables(mem0, mem1, mem2, pd, HeldPages(held));
  }

  lemma AfterAlloc(mem0: Memory, used0: set<nat>, mem1: Memory, used1: set<nat>, mem2: Memory, used2: set<nat>,
                   pd: nat, top: nat, held: set<Extent>, e: Extent)
    requires pd < FRAMES && Apart(held) && e.pages > 0 && top < e.page && e.page + e.pages <= WINDOW_PAGE
    requires Ledger(mem1, pd, top, used0, used1, HeldPages(held)) && AddsOnly(mem0, mem1, pd, HeldPages(held))
    requires Run(mem1, pd, e.page, e.pages) && Allocated(mem1, used1, mem2, used2, pd, e.page, e.pages)
    ensures var more := held + {e};
            && e !in held && Apart(more)
            && Ledger(mem2, pd, top, used0, used2, HeldPages(more)) && AddsOnly(mem0, mem2, pd, HeldPages(more))
    ensures Undisturbed(mem1, mem2, pd, held)
  {
    LedgerAfterAlloc(mem1, used1, mem2, used2, pd, top, used0, HeldPages(held), e.page, e.pages);
    AddsAfterAlloc(mem0, mem1, mem2, pd, HeldPages(held), e.page, e.pages);
    NotHeld(held, e);
    HoldMore(held, e);
  }

  /** The lowest run of `n` pages joins what is held; null exactly when there is none. */
  method AllocateAnywhere(m: Mmu, n: nat, ghost held: set<Extent>, ghost mem0: Memory, ghost used0: set<nat>)
    returns (r: Outcome)
    requires Reached(m, mem0, used0, held)
    modifies m.Repr()
    ensures r.Panicked? ==> m.frames.Free() == {}
    ensures old(m.pd) < FRAMES && (r.Panicked? <==> old(m.FreeCount()) < FramesNeeded(old(m.mem), old(m.pd), n))
    ensures r.Done? ==> m.frames.Usable() == old(m.frames.Usable())
    ensures r.Done? ==> m.pd == old(m.pd) && m.top == old(m.top) && Undisturbed(old(m.mem), m.mem, m.pd, held)
    ensures r.Done? ==> (r.address != 0 <==> HasRun(old(m.mem), m.pd, n))
    ensures n == 0 ==> m.mem == old(m.mem) && m.frames.Used() == old(m.frames.Used())
    ensures r.Done? && n > 0 ==> Sought(old(m.mem), m.mem, m.pd, n, r.address / 0x1000)
    ensures r == Done(0) ==>
              && Reached(m, mem0, used0, held)
              && OnlyTables(old(m.mem), old(m.frames.Used()), m.mem, m.frames.Used(), m.pd)
    ensures r.Done? && r.address != 0 ==>
              var p := r.address / 0x1000;
              && r.address == p * 0x1000 && m.top < p && p + n <= WINDOW_PAGE
              && LowestRun(old(m.mem), m.pd, n, p) && Extent(p, n) !in held
              && Allocated(old(m.mem), old(m.frames.Used()), m.mem, m.frames.Used(), m.pd, p, n)
              && Reached(m, mem0, used0, held + {Extent(p, n)})
  {
    AllSides(m, mem0, used0, held);
    ghost var was, used := m.mem, m.frames.Used();
    r := m.Palloc(n);
    if r.Panicked? {
      return;
    }
    if r.address == 0 {
      AfterTables(mem0, used0, was, used, m.mem, m.frames.Used(), m.pd, m.top, held);
    } else {
      assert RunBelow(was, m.pd, r.address / 0x1000, n);
      AfterAlloc(mem0, used0, was, used, m.mem, m.frames.Used(), m.pd, m.top, held, Extent(r.address / 0x1000, n));
    }
  }

  /** What is held once a range at a fixed address has been granted. */
  function WithRange(held: set<Extent>, p: nat, n: nat): set<Extent> {
    if n > 0 then held + {Extent(p, n)} else held
  }

  /** The range asked for joins what is held, exactly when it is aligned, not null and unmapped. */
  method AllocateAt(m: Mmu, va: nat, n: nat, ghost held: set<Extent>, ghost mem0: Memory, ghost used0: set<nat>)
    returns (r: Outcome)
    requires Reached(m, mem0, used0, held) && va / 0x1000 + n <= WINDOW_PAGE
    modifies m.Repr()
    ensures r.Panicked? ==> m.frames.Free() == {}
    ensures old(m.pd) < FRAMES
    ensures r.Panicked? <==>
              va % 0x1000 == 0 && old(m.FreeCount()) < FramesNeededAt(old(m.mem), old(m.pd), va / 0x1000, n)
    ensures r.Done? ==> m.frames.Usable() == old(m.frames.Usable())
    ensures r.Done? ==> m.pd == old(m.pd) && m.top == old(m.top) && Undisturbed(old(m.mem), m.mem, m.pd, held)
    ensures r.Done? ==> (r.address != 0 <==> va != 0 && va % 0x1000 == 0 && Run(old(m.mem), m.pd, va / 0x1000, n))
    ensures r.Done? ==> TablesMade(old(m.mem), m.mem, m.pd, SlotsLooked(old(m.mem), m.pd, va, n))
    ensures r == Done(0) ==>
              && Reached(m, mem0, used0, held)
              && OnlyTables(old(m.mem), old(m.frames.Used()), m.mem, m.frames.Used(), m.pd)
    ensures r.Done? && r.address != 0 ==>
              && r.address == va && (n > 0 ==> Extent(va / 0x1000, n) !in held)
              && Allocated(old(m.mem), old(m.frames.Used()), m.mem, m.frames.Used(), m.pd, va / 0x1000, n)
              && Reached(m, mem0, used0, WithRange(held, va / 0x1000, n))
  {
    AllSides(m, mem0, used0, held);
    ghost var was, used := m.mem, m.frames.Used();
    r := m.PallocAt(va, n);
    if r.Panicked? {
      return;
    }
    if r.address == 0 {
      AfterTables(mem0, used0, was, used, m.mem, m.frames.Used(), m.pd, m.top, held);
    } else if n == 0 {
      NothingAllocated(was, used, m.mem, m.frames.Used(), m.pd, va / 0x1000);
      AfterTables(mem0, used0, was, used, m.mem, m.frames.Used(), m.pd, m.top, held);
    } else {
      AfterAlloc(mem0, used0, was, used, m.mem, m.frames.Used(), m.pd, m.top, held, Extent(va / 0x1000, n));
    }
  }

  lemma NotHeld(held: set<Extent>, e: Extent)
    requires e.pages > 0 && HeldPages(held) !! Pages(e)
    ensures e !in held
  {
    assert e.page in Pages(e);
  }

  lemma NothingAllocated(mem0: Memory, used0: set<nat>, mem1: Memory, used1: set<nat>, pd: nat, p: nat)
    requires pd < FRAMES && p <= WINDOW_PAGE && Allocated(mem0, used0, mem1, used1, pd, p, 0)
    ensures OnlyTables(mem0, used0, mem1, used1, pd)
  {
    assert PageFramesIn(mem1, pd, p, 0) == {};
  }

  lemma ExtentMapped(mem: Memory, pd: nat, top: nat, held: set<Extent>, e: Extent)
    requires pd < FRAMES && Apart(held) && e in held
    requires forall q :: q in HeldPages(held) ==> MappedAt(mem, pd, top, q)
    ensures e.pages > 0 && top < e.page && e.page + e.pages <= WINDOW_PAGE
    ensures forall q: nat | e.page <= q < e.page + e.pages :: !Unmapped(mem, pd, q)
  {
    PagesOfOne(held, e);
    assert e.page in Pages(e) && e.page + e.pages - 1 in Pages(e);
    forall q: nat | e.page <= q < e.page + e.pages
      ensures q < WINDOW_PAGE && !Unmapped(mem, pd, q)
    {
      assert q in Pages(e);
    }
  }

  lemma AfterRelease(mem0: Memory, used0: set<nat>, mem1: Memory, frames: Frames, owner: map<nat, Owner>,
                     mem2: Memory, used2: set<nat>, pd: nat, top: nat, held: set<Extent>, e: Extent)
    requires Apart(held) && e in held && e.page + e.pages <= WINDOW_PAGE && Sound(mem1, pd, top, frames, owner)
    requires Ledger(mem1, pd, top, used0, frames.used, HeldPages(held)) && AddsOnly(mem0, mem1, pd, HeldPages(held))
    requires FreedPages(mem1, frames.used, mem2, used2, pd, e.page, e.pages) && mem2[pd] == mem1[pd]
    ensures var rest := held - {e};
            && Apart(rest) && Undisturbed(mem1, mem2, pd, rest)
            && Ledger(mem2, pd, top, used0, used2, HeldPages(rest)) && AddsOnly(mem0, mem2, pd, HeldPages(rest))
  {
    HoldLess(held, e);
    LedgerAfterFree(mem1, frames, owner, mem2, used2, pd, top, used0, HeldPages(held), e.page, e.pages);
    AddsAfterFree(mem0, mem1, mem2, pd, HeldPages(held), e.page, e.pages);
  }

  /** One held range is given back; the others stay where they are. */
  method ReleaseExtent(m: Mmu, e: Extent, ghost held: set<Extent>, ghost mem0: Memory, ghost used0: set<nat>)
    requires Reached(m, mem0, used0, held) && e in held
    modifies m.Repr()
    ensures m.pd == old(m.pd) && m.top == old(m.top) && Reached(m, mem0, used0, held - {e})
    ensures m.frames.Usable() == old(m.frames.Usable())
    ensures Undisturbed(old(m.mem), m.mem, m.pd, held - {e})
    ensures e.page + e.pages <= WINDOW_PAGE
    ensures FreedPages(old(m.mem), old(m.frames.Used()), m.mem, m.frames.Used(), m.pd, e.page, e.pages)
    ensures m.mem[m.pd] == old(m.mem)[m.pd]
  {
    AllSides(m, mem0, used0, held);
    ExtentMapped(m.mem, m.pd, m.top, held, e);
    ghost var was, frames, owner := m.mem, m.FrameSets(), m.owner;
    var status := m.Pfree(e.page * 0x1000, e.pages);
    AfterRelease(mem0, used0, was, frames, owner, m.mem, m.frames.Used(), m.pd, m.top, held, e);
  }

  // ----- Whole runs -----

  /** A state of the run: the page tables, the frames in use and the ranges held. */
  datatype Moment = Moment(mem: Memory, used: set<nat>, held: set<Extent>)

  ghost predicate Takes(pd: nat, s: Moment, s': Moment, p: nat, n: nat)
    requires pd < FRAMES
  {
    && p + n <= WINDOW_PAGE && Allocated(s.mem, s.used, s'.mem, s'.used, pd, p, n)
    && s'.held == WithRange(s.held, p, n) && (n > 0 ==> Extent(p, n) !in s.held)
  }

  ghost predicate TakesNothing(pd: nat, s: Moment, s': Moment)
    requires pd < FRAMES
  {
    OnlyTables(s.mem, s.used, s'.mem, s'.used, pd) && s'.held == s.held
  }

  /** What one operation does. Ranges that reach into the self-map window are not asked for. */
  ghost predicate Next(pd: nat, op: Op, s: Moment, s': Moment)
    requires pd < FRAMES
  {
    match op
    case Anywhere(n) =>
      if n == 0 then s' == s
      else if HasRun(s.mem, pd, n) then
        exists p: nat :: Takes(pd, s, s', p, n) && LowestRun(s.mem, pd, n, p) && Sought(s.mem, s'.mem, pd, n, p)
      else TakesNothing(pd, s, s') && Sought(s.mem, s'.mem, pd, n, 0)
    case At(va, n) =>
      if va / 0x1000 + n > WINDOW_PAGE then s' == s
      else
        && TablesMade(s.mem, s'.mem, pd, SlotsLooked(s.mem, pd, va, n))
        && if va != 0 && va % 0x1000 == 0 && Run(s.mem, pd, va / 0x1000, n) then Takes(pd, s, s', va / 0x1000, n)
           else TakesNothing(pd, s, s')
    case Release(e) =>
      if e in s.held then
        && s'.held == s.held - {e} && e.page + e.pages <= WINDOW_PAGE
        && FreedPages(s.mem, s.used, s'.mem, s'.used, pd, e.page, e.pages)
      else s' == s
  }

  lemma NextAnywhere(pd: nat, s: Moment, s': Moment, n: nat, p: nat)
    requires pd < FRAMES && (n == 0 ==> s' == s) && (p != 0 <==> HasRun(s.mem, pd, n))
    requires n > 0 ==> Sought(s.mem, s'.mem, pd, n, p)
    requires if p == 0 then TakesNothing(pd, s, s') else Takes(pd, s, s', p, n) && LowestRun(s.mem, pd, n, p)
    ensures Next(pd, Anywhere(n), s, s')
  {
  }

  lemma NextAt(pd: nat, s: Moment, s': Moment, va: nat, n: nat, granted: bool)
    requires pd < FRAMES && va / 0x1000 + n <= WINDOW_PAGE
    requires TablesMade(s.mem, s'.mem, pd, SlotsLooked(s.mem, pd, va, n))
    requires granted <==> va != 0 && va % 0x1000 == 0 && Run(s.mem, pd, va / 0x1000, n)
    requires if granted then Takes(pd, s, s', va / 0x1000, n) else TakesNothing(pd, s, s')
    ensures Next(pd, At(va, n), s, s')
  {
  }

  /** The frames an operation takes: pages, and the tables that its way through the directory lacks. */
  ghost function Demand(pd: nat, op: Op, mem: Memory): nat
    requires pd < FRAMES
  {
    match op
    case Anywhere(n) => FramesNeeded(mem, pd, n)
    case At(va, n) =>
      if va / 0x1000 + n > WINDOW_PAGE || va % 0x1000 != 0 then 0 else FramesNeededAt(mem, pd, va / 0x1000, n)
    case Release(_) => 0
  }

  /** Too few frames are free for the operation. */
  ghost predicate Short(usable: set<nat>, pd: nat, op: Op, s: Moment)
    requires pd < FRAMES
  {
    Count(usable - s.used, FRAMES) < Demand(pd, op, s.mem)
  }

  ghost predicate IsRun(pd: nat, ops: seq<Op>, states: seq<Moment>)
    requires pd < FRAMES
  {
    |states| == |ops| + 1 && forall k :: 0 <= k < |ops| ==> Next(pd, ops[k], states[k], states[k + 1])
  }

  lemma RunExtends(pd: nat, ops: seq<Op>, k: nat, states: seq<Moment>, s: Moment)
    requires pd < FRAMES && k < |ops| && IsRun(pd, ops[..k], states) && Next(pd, ops[k], states[k], s)
    ensures IsRun(pd, ops[..k + 1], states + [s])
  {
    var longer := states + [s];
    forall i | 0 <= i < k + 1
      ensures Next(pd, ops[..k + 1][i], longer[i], longer[i + 1])
    {
      if i < k {
        assert ops[..k][i] == ops[i] && Next(pd, ops[..k][i], states[i], states[i + 1]);
      }
    }
  }

  /**
   Any interleaving of operations does what each of them promises, one after the
   other, up to the first that demands more frames than are free then. Once everything held
   has been released, every translation is what it was at the start and the frames
   in use are those in use at the start plus the page tables that were created.
   */
  method Execute(m: Mmu, ops: seq<Op>) returns (panicked: bool, held: set<Extent>, ghost states: seq<Moment>)
    requires m.Valid()
    modifies m.Repr()
    ensures old(m.pd) < FRAMES && 0 < |states| <= |ops| + 1 && IsRun(old(m.pd), ops[..|states| - 1], states)
    ensures states[0] == Moment(old(m.mem), old(m.frames.Used()), {})
    ensures panicked ==> |states| <= |ops| && m.frames.Free() == {}
    ensures forall k | 0 <= k < |states| && k < |ops| ::
              Short(old(m.frames.Usable()), old(m.pd), ops[k], states[k]) <==> panicked && k == |states| - 1
    ensures !panicked ==>
              && |states| == |ops| + 1 && states[|ops|] == Moment(m.mem, m.frames.Used(), held)
              && m.pd == old(m.pd) && m.top == old(m.top)
              && Reached(m, old(m.mem), old(m.frames.Used()), held)
              && (held == {} ==>
                    && SameTranslations(old(m.mem), m.mem, m.pd)
                    && m.frames.Used() == old(m.frames.Used()) + TableFrames(m.mem, m.pd))
  {
    held, panicked := {}, false;
    StartRun(m);
    states := [Moment(m.mem, m.frames.Used(), {})];
    for k := 0 to |ops|
      invariant m.pd == old(m.pd) && m.top == old(m.top)
      invariant Reached(m, old(m.mem), old(m.frames.Used()), held)
      invariant IsRun(m.pd, ops[..k], states) && states[k] == Moment(m.mem, m.frames.Used(), held)
      invariant states[0] == Moment(old(m.mem), old(m.frames.Used()), {})
      invariant m.frames.Usable() == old(m.frames.Usable())
      invariant forall i | 0 <= i < k :: !Short(m.frames.Usable(), m.pd, ops[i], states[i])
    {
      ghost var earlier := states;
      panicked, held := Step(m, ops[k], held, old(m.mem), old(m.frames.Used()));
      if panicked {
        return;
      }
      states := earlier + [Moment(m.mem, m.frames.Used(), held)];
      RunExtends(m.pd, ops, k, earlier, Moment(m.mem, m.frames.Used(), held));
    }
    assert ops[..|ops|] == ops;
    if held == {} {
      NothingHeld(m, old(m.mem), old(m.frames.Used()));
    }
  }

  /** What an operation does not give back. */
  function StillHeld(op: Op, held: set<Extent>): set<Extent> {
    if op.Release? then held - {op.extent} else held
  }

  method Step(m: Mmu, op: Op, held0: set<Extent>, ghost mem0: Memory, ghost used0: set<nat>)
    returns (panicked: bool, held: set<Extent>)
    requires Reached(m, mem0, used0, held0)
    modifies m.Repr()
    ensures panicked ==> m.frames.Free() == {}
    ensures old(m.pd) < FRAMES
    ensures panicked <==> old(Short(m.frames.Usable(), m.pd, op, Moment(m.mem, m.frames.Used(), held0)))
    ensures !panicked ==> m.frames.Usable() == old(m.frames.Usable())
    ensures !panicked ==> m.pd == old(m.pd) && m.top == old(m.top) && Reached(m, mem0, used0, held)
    ensures !panicked ==>
              && Next(m.pd, op, Moment(old(m.mem), old(m.frames.Used()), held0), Moment(m.mem, m.frames.Used(), held))
              && StillHeld(op, held0) <= held && Undisturbed(old(m.mem), m.mem, m.pd, StillHeld(op, held0))
  {
    panicked, held := false, held0;
    match op
    case Anywhere(n) =>
      panicked, held := StepAnywhere(m, n, held0, mem0, used0);
    case At(va, n) =>
      if va / 0x1000 + n <= WINDOW_PAGE {
        var r := AllocateAt(m, va, n, held0, mem0, used0);
        panicked := r.Panicked?;
        if r.Done? && r.address != 0 {
          held := WithRange(held0, va / 0x1000, n);
        }
      }
    case Release(e) =>
      if e in held {
        ReleaseExtent(m, e, held, mem0, used0);
        held := held - {e};
      }
  }

  method StepAnywhere(m: Mmu, n: nat, held0: set<Extent>, ghost mem0: Memory, ghost used0: set<nat>)
    returns (panicked: bool, held: set<Extent>)
    requires Reached(m, mem0, used0, held0)
    modifies m.Repr()
    ensures panicked ==> m.frames.Free() == {}
    ensures old(m.pd) < FRAMES && (panicked <==> old(m.FreeCount()) < FramesNeeded(old(m.mem), old(m.pd), n))
    ensures !panicked ==> m.frames.Usable() == old(m.frames.Usable())
    ensures !panicked ==> m.pd == old(m.pd) && m.top == old(m.top) && Reached(m, mem0, used0, held)
    ensures !panicked ==>
              && Next(m.pd, Anywhere(n), Moment(old(m.mem), old(m.frames.Used()), held0),
                      Moment(m.mem, m.frames.Used(), held))
              && held0 <= held && Undisturbed(old(m.mem), m.mem, m.pd, held0)
  {
    ghost var s := Moment(m.mem, m.frames.Used(), held0);
    held := held0;
    var r := AllocateAnywhere(m, n, held0, mem0, used0);
    panicked := r.Panicked?;
    if r.Done? && r.address != 0 {
      held := held0 + {Extent(r.address / 0x1000, n)};
      assert Takes(m.pd, s, Moment(m.mem, m.frames.Used(), held), r.address / 0x1000, n);
    }
    if r.Done? {
      NextAnywhere(m.pd, s, Moment(m.mem, m.frames.Used(), held), n, r.address / 0x1000);
    }
  }

  /**
   Allocating a range, anywhere or at an address, and freeing it at once. `taken` is
   the state in between, in which the range is mapped.
   */
  method AllocThenFree(m: Mmu, op: Op) returns (r: Outcome, ghost taken: Moment)
    requires m.Valid() && !op.Release? && (op.At? ==> op.va / 0x1000 + op.n <= WINDOW_PAGE)
    modifies m.Repr()
    ensures r.Panicked? ==> m.frames.Free() == {}
    ensures old(m.pd) < FRAMES && (r.Panicked? <==> old(m.FreeCount()) < Demand(old(m.pd), op, old(m.mem)))
    ensures r.Done? ==>
              && m.Valid() && m.pd == old(m.pd)
              && SameTranslations(old(m.mem), m.mem, m.pd)
              && m.frames.Used() == old(m.frames.Used()) + TableFrames(m.mem, m.pd)
    ensures r.Done? ==>
              && Next(m.pd, op, Moment(old(m.mem), old(m.frames.Used()), {}), taken)
              && (taken.held == {} || taken.held == {Extent(r.address / 0x1000, op.n)})
              && (op.Anywhere? ==> (r.address != 0 <==> HasRun(old(m.mem), m.pd, op.n)))
              && (op.At? ==> (r.address != 0 <==>
                               op.va != 0 && op.va % 0x1000 == 0 && Run(old(m.mem), m.pd, op.va / 0x1000, op.n)))
  {
    StartRun(m);
    ghost var mem0, used0 := m.mem, m.frames.Used();
    if op.Anywhere? {
      r := AllocateAnywhere(m, op.n, {}, mem0, used0);
    } else {
      r := AllocateAt(m, op.va, op.n, {}, mem0, used0);
    }
    taken := Moment(m.mem, m.frames.Used(), {});
    if r.Done? {
      if r.address != 0 && op.n > 0 {
        var e := Extent(r.address / 0x1000, op.n);
        taken := taken.(held := {e});
        assert {} + {e} == {e} && {e} - {e} == {};
        assert op.Anywhere? ==> Takes(m.pd, Moment(mem0, used0, {}), taken, e.page, e.pages);
        ReleaseExtent(m, e, {e}, mem0, used0);
      }
      NothingHeld(m, mem0, used0);
    }
  }
}
